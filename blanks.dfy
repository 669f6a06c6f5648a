/**
 * Positional blank substitution, `story.join(' ').replace(/___/g, () => inputs.shift())`.
 *
 * The regular expression scans the template left to right for non-overlapping
 * runs of three underscores; each match is replaced by the next collected
 * input, taken off the front of the list.  The replacement text is never
 * scanned again.  When the inputs run out, `shift()` yields `undefined`, which
 * the replacement turns into the text "undefined"; inputs left over are ignored.
 */
module Blanks {

  /** The blank marker. */
  const Marker: string := "___"

  /** What `inputs.shift()` contributes to the text: the first input, or "undefined". */
  function Shifted(inputs: seq<string>): string {
    if inputs == [] then "undefined" else inputs[0]
  }

  /** The inputs left after one `shift()`. */
  function Remaining(inputs: seq<string>): seq<string> {
    if inputs == [] then [] else inputs[1..]
  }

  /** The global replace: every marker, left to right, gets the next input. */
  function Fill(s: string, inputs: seq<string>): string
    decreases |s|
  {
    if |s| < 3 then s
    else if s[..3] == Marker then Shifted(inputs) + Fill(s[3..], Remaining(inputs))
    else [s[0]] + Fill(s[1..], inputs)
  }

  /** The template cut at its markers, found as the replace finds them (`s.split("___")`). */
  function Pieces(s: string): (ps: seq<string>)
    ensures |ps| >= 1
    decreases |s|
  {
    if |s| < 3 then [s]
    else if s[..3] == Marker then [""] + Pieces(s[3..])
    else
      var rest := Pieces(s[1..]);
      [[s[0]] + rest[0]] + rest[1..]
  }

  /** The number of blanks the replace finds. */
  function MarkerCount(s: string): nat {
    |Pieces(s)| - 1
  }

  /** The pieces with the values between them: `ps[0] + vs[0] + ps[1] + ... + ps[k]`. */
  function Interleave(ps: seq<string>, vs: seq<string>): string
    requires |ps| == |vs| + 1
    decreases |vs|
  {
    if vs == [] then ps[0] else ps[0] + vs[0] + Interleave(ps[1..], vs[1..])
  }

  /** True when a marker starts at position `i` of `s`. */
  predicate MarkerAt(s: string, i: int) {
    0 <= i && i + 3 <= |s| && s[i..i + 3] == Marker
  }

  /** True when `s` holds three underscores in a row somewhere. */
  ghost predicate HasMarker(s: string) {
    exists i :: MarkerAt(s, i)
  }

  function Repeat(x: string, n: nat): (r: seq<string>)
    ensures |r| == n && forall i :: 0 <= i < n ==> r[i] == x
  {
    seq(n, _ => x)
  }

  lemma InterleaveFirst(c: char, ps: seq<string>, vs: seq<string>)
    requires |ps| == |vs| + 1
    ensures Interleave([[c] + ps[0]] + ps[1..], vs) == [c] + Interleave(ps, vs)
  {
  }

  /**
   * With one input per blank, the result is the template with the i-th blank,
   * counted left to right, replaced by the i-th input.
   */
  lemma {:induction false} FillPositional(s: string, inputs: seq<string>)
    requires |inputs| == MarkerCount(s)
    ensures Fill(s, inputs) == Interleave(Pieces(s), inputs)
    decreases |s|
  {
    if |s| < 3 {
    } else if s[..3] == Marker {
      FillPositional(s[3..], inputs[1..]);
    } else {
      FillPositional(s[1..], inputs);
      InterleaveFirst(s[0], Pieces(s[1..]), inputs);
    }
  }

  /**
   * With fewer inputs than blanks, the blanks without an input get the text
   * "undefined".
   */
  lemma {:induction false} FillTooFewInputs(s: string, inputs: seq<string>)
    requires |inputs| <= MarkerCount(s)
    ensures Fill(s, inputs) == Interleave(Pieces(s), inputs + Repeat("undefined", MarkerCount(s) - |inputs|))
    decreases |s|
  {
    var all := inputs + Repeat("undefined", MarkerCount(s) - |inputs|);
    if |s| < 3 {
    } else if s[..3] == Marker {
      var t := s[3..];
      var rest := Remaining(inputs);
      var more := rest + Repeat("undefined", MarkerCount(t) - |rest|);
      assert Pieces(s) == [""] + Pieces(t);
      assert all[0] == Shifted(inputs) && all[1..] == more;
      assert Fill(t, rest) == Interleave(Pieces(t), more) by {
        FillTooFewInputs(t, rest);
      }
      assert Interleave(Pieces(s), all) == "" + all[0] + Interleave(Pieces(t), all[1..]);
    } else {
      var t := s[1..];
      assert Pieces(s) == [[s[0]] + Pieces(t)[0]] + Pieces(t)[1..];
      assert Fill(s, inputs) == [s[0]] + Fill(t, inputs);
      assert Fill(t, inputs) == Interleave(Pieces(t), all) by {
        FillTooFewInputs(t, inputs);
      }
      InterleaveFirst(s[0], Pieces(t), all);
    }
  }

  /** Inputs beyond the number of blanks are never used. */
  lemma {:induction false} FillIgnoresExtra(s: string, inputs: seq<string>, extra: seq<string>)
    requires |inputs| == MarkerCount(s)
    ensures Fill(s, inputs + extra) == Fill(s, inputs)
    decreases |s|
  {
    if |s| < 3 {
    } else if s[..3] == Marker {
      assert (inputs + extra)[1..] == inputs[1..] + extra;
      FillIgnoresExtra(s[3..], inputs[1..], extra);
    } else {
      FillIgnoresExtra(s[1..], inputs, extra);
    }
  }

  /** A template without a blank comes out unchanged, whatever the inputs. */
  lemma {:induction false} FillWithoutMarkers(s: string, inputs: seq<string>)
    requires !HasMarker(s)
    ensures Fill(s, inputs) == s
    decreases |s|
  {
    if |s| >= 3 {
      assert !MarkerAt(s, 0);
      assert s[0..3] == s[..3];
      assert !HasMarker(s[1..]) by {
        forall i | 0 <= i && i + 3 <= |s| - 1 ensures !MarkerAt(s[1..], i) {
          assert s[1..][i..i + 3] == s[i + 1..i + 4];
          assert !MarkerAt(s, i + 1);
        }
      }
      FillWithoutMarkers(s[1..], inputs);
    }
  }

  /** Putting the markers back between the pieces rebuilds the template. */
  lemma {:induction false} PiecesRebuild(s: string)
    ensures Interleave(Pieces(s), Repeat(Marker, MarkerCount(s))) == s
    decreases |s|
  {
    if |s| < 3 {
    } else if s[..3] == Marker {
      PiecesRebuild(s[3..]);
      assert Repeat(Marker, MarkerCount(s))[1..] == Repeat(Marker, MarkerCount(s[3..]));
      assert s == s[..3] + s[3..];
    } else {
      var t := s[1..];
      var ms := Repeat(Marker, MarkerCount(s));
      assert Interleave(Pieces(t), ms) == t by {
        assert ms == Repeat(Marker, MarkerCount(t));
        PiecesRebuild(t);
      }
      InterleaveFirst(s[0], Pieces(t), ms);
      assert [s[0]] + t == s;
    }
  }

  /**
   * The first piece runs up to the leftmost marker: no marker starts inside it,
   * and either it is the whole template, which then holds no marker, or a
   * marker follows it and the other pieces are those of the text after that
   * marker.
   */
  lemma {:induction false} PiecesFirstCut(s: string)
    ensures var ps := Pieces(s); var k := |ps[0]|;
            && k <= |s| && ps[0] == s[..k]
            && (forall i :: 0 <= i < k ==> !MarkerAt(s, i))
            && (|ps| == 1 ==> ps[0] == s && !HasMarker(s))
            && (|ps| > 1 ==> MarkerAt(s, k) && ps[1..] == Pieces(s[k + 3..]))
    decreases |s|
  {
    if |s| < 3 {
    } else if s[..3] == Marker {
      assert s[0..3] == s[..3];
    } else {
      var t := s[1..];
      var rest := Pieces(t);
      var k := |rest[0]| + 1;
      PiecesFirstCut(t);
      assert !MarkerAt(s, 0) by {
        assert s[0..3] == s[..3];
      }
      assert Pieces(s)[0] == s[..k] by {
        assert [s[0]] + t[..k - 1] == s[..k];
      }
      forall i | 0 <= i < k ensures !MarkerAt(s, i) {
        if i > 0 {
          MarkerShift(s, i);
        }
      }
      if |rest| == 1 {
        assert Pieces(s)[0] == s by {
          assert [s[0]] + t == s;
        }
        forall i ensures !MarkerAt(s, i) {
          if i > 0 {
            MarkerShift(s, i);
          }
        }
      } else {
        MarkerShift(s, k);
        assert t[k - 1 + 3..] == s[k + 3..];
      }
    }
  }

  /** A marker at position `i > 0` of `s` is one at `i - 1` of `s` without its first character. */
  lemma MarkerShift(s: string, i: int)
    requires s != [] && 1 <= i
    ensures MarkerAt(s, i) <==> MarkerAt(s[1..], i - 1)
  {
    if i + 3 <= |s| {
      assert s[i..i + 3] == s[1..][i - 1..i + 2];
    }
  }

  /** No piece holds a marker: the replace finds every marker of the template. */
  lemma {:induction false} PiecesHaveNoMarker(s: string)
    ensures forall i :: 0 <= i < |Pieces(s)| ==> !HasMarker(Pieces(s)[i])
    decreases |s|
  {
    var ps := Pieces(s);
    var k := |ps[0]|;
    PiecesFirstCut(s);
    assert !HasMarker(ps[0]) by {
      forall i | MarkerAt(ps[0], i) ensures i < k && MarkerAt(s, i) {
        assert ps[0][i..i + 3] == s[i..i + 3];
      }
    }
    if |ps| > 1 {
      PiecesHaveNoMarker(s[k + 3..]);
      forall i | 1 <= i < |ps| ensures !HasMarker(ps[i]) {
        assert ps[i] == Pieces(s[k + 3..])[i - 1];
      }
    }
  }

  /**
   * Every piece followed by a cut is empty or does not end in an underscore:
   * the replace takes the leftmost three of a longer run of underscores.
   */
  lemma {:induction false} PiecesBeforeCut(s: string)
    ensures forall i :: 0 <= i < |Pieces(s)| - 1 ==> Pieces(s)[i] == [] || Pieces(s)[i][|Pieces(s)[i]| - 1] != '_'
    decreases |s|
  {
    var ps := Pieces(s);
    var k := |ps[0]|;
    PiecesFirstCut(s);
    if |ps| > 1 {
      if k > 0 {
        UnderscoreBeforeMarker(s, k);
        assert ps[0][k - 1] == s[k - 1];
      }
      PiecesBeforeCut(s[k + 3..]);
      forall i | 1 <= i < |ps| - 1 ensures ps[i] == [] || ps[i][|ps[i]| - 1] != '_' {
        assert ps[i] == Pieces(s[k + 3..])[i - 1];
      }
    }
  }

  /** Just before a marker that is the leftmost one there, no underscore can stand. */
  lemma UnderscoreBeforeMarker(s: string, k: int)
    requires 1 <= k && MarkerAt(s, k) && !MarkerAt(s, k - 1)
    ensures s[k - 1] != '_'
  {
    assert s[k] == '_' && s[k + 1] == '_' by {
      assert s[k..k + 3][0] == s[k] && s[k..k + 3][1] == s[k + 1];
    }
    assert s[k - 1..k + 2] == [s[k - 1], s[k], s[k + 1]];
  }

  /**
   * Replacement text is not scanned again: answering every blank with the
   * marker itself gives back the template unchanged.
   */
  lemma NoRescan(s: string)
    ensures Fill(s, Repeat(Marker, MarkerCount(s))) == s
  {
    FillPositional(s, Repeat(Marker, MarkerCount(s)));
    PiecesRebuild(s);
  }

  /** Text without underscores is copied through, and the scan goes on after it. */
  lemma {:induction false} FillCopies(p: string, rest: string, inputs: seq<string>)
    requires '_' !in p
    ensures Fill(p + rest, inputs) == p + Fill(rest, inputs)
    decreases |p|
  {
    if p != [] {
      var s := p + rest;
      assert s[1..] == p[1..] + rest;
      FillCopies(p[1..], rest, inputs);
      assert p == [p[0]] + p[1..];
      if |s| >= 3 {
        assert s[..3][0] == p[0] != '_' == Marker[0];
        assert Fill(s, inputs) == [p[0]] + Fill(s[1..], inputs);
      } else {
        assert Fill(rest, inputs) == rest;
      }
    } else {
      assert p + rest == rest;
    }
  }

  /** A marker at the front takes the next input. */
  lemma FillMarker(rest: string, inputs: seq<string>)
    ensures Fill(Marker + rest, inputs) == Shifted(inputs) + Fill(rest, Remaining(inputs))
  {
    var s := Marker + rest;
    assert s[..3] == Marker && s[3..] == rest;
  }

  /** Two blanks, each after text without underscores, take the two inputs in order. */
  lemma FillTwo(a: string, b: string, x: string, y: string)
    requires '_' !in a && '_' !in b
    ensures Fill(a + Marker + b + Marker, [x, y]) == a + x + b + y
  {
    var ins := [x, y];
    assert Fill(b + Marker, [y]) == b + y by {
      FillMarker("", [y]);
      assert Marker + "" == Marker;
      FillCopies(b, Marker, [y]);
    }
    assert Fill(Marker + (b + Marker), ins) == x + (b + y) by {
      FillMarker(b + Marker, ins);
      assert Remaining(ins) == [y];
    }
    assert Fill(a + (Marker + (b + Marker)), ins) == a + (x + (b + y)) by {
      FillCopies(a, Marker + (b + Marker), ins);
    }
    assert a + Marker + b + Marker == a + (Marker + (b + Marker));
  }

  /** Two blanks in one template take "cat" and "dog" in order. */
  lemma CatAndDog()
    ensures Fill("I have a ___ and a ___", ["cat", "dog"]) == "I have a cat and a dog"
  {
    assert "I have a " + Marker + " and a " + Marker == "I have a ___ and a ___" by {}
    assert "I have a " + "cat" + " and a " + "dog" == "I have a cat and a dog" by {}
    FillTwo("I have a ", " and a ", "cat", "dog");
  }
}
