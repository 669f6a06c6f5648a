/**
 * The JavaScript string operations the game relies on: `split` and `join` on a
 * one-character separator, and `trim`.  Strings are sequences of characters.
 */
module JsText {

  /** The characters `String.prototype.trim` removes: ECMAScript WhiteSpace and LineTerminator. */
  predicate IsWhitespace(c: char) {
    || ('\t' <= c <= '\r') || c == ' '
    || c == '\U{00A0}' || c == '\U{1680}' || ('\U{2000}' <= c <= '\U{200A}')
    || c == '\U{2028}' || c == '\U{2029}' || c == '\U{202F}' || c == '\U{205F}'
    || c == '\U{3000}' || c == '\U{FEFF}'
  }

  /** Leading whitespace removed: what remains is a suffix of `s` that does not start with whitespace. */
  function TrimStart(s: string): (r: string)
    ensures |r| <= |s| && r == s[|s| - |r|..]
    ensures forall i :: 0 <= i < |s| - |r| ==> IsWhitespace(s[i])
    ensures r == [] || !IsWhitespace(r[0])
  {
    if s != [] && IsWhitespace(s[0]) then TrimStart(s[1..]) else s
  }

  /** Trailing whitespace removed: what remains is a prefix of `s` that does not end with whitespace. */
  function TrimEnd(s: string): (r: string)
    ensures |r| <= |s| && r == s[..|r|]
    ensures forall i :: |r| <= i < |s| ==> IsWhitespace(s[i])
    ensures r == [] || !IsWhitespace(r[|r| - 1])
  {
    if s != [] && IsWhitespace(s[|s| - 1]) then TrimEnd(s[..|s| - 1]) else s
  }

  /** Every character of `w` is whitespace. */
  predicate AllWhitespace(w: string) {
    w == [] || (IsWhitespace(w[0]) && AllWhitespace(w[1..]))
  }

  /** `s.trim()`: the middle of `s`, with all of its leading and trailing whitespace removed and nothing else. */
  function Trim(s: string): (r: string)
    ensures |r| <= |s|
    ensures r == [] || (!IsWhitespace(r[0]) && !IsWhitespace(r[|r| - 1]))
  {
    TrimEnd(TrimStart(s))
  }

  /** `AllWhitespace` says what its name says. */
  lemma {:induction false} AllWhitespaceMeans(w: string)
    ensures AllWhitespace(w) <==> forall i :: 0 <= i < |w| ==> IsWhitespace(w[i])
    decreases |w|
  {
    if w != [] {
      AllWhitespaceMeans(w[1..]);
      if forall i :: 0 <= i < |w| ==> IsWhitespace(w[i]) {
        assert forall i :: 0 <= i < |w[1..]| ==> IsWhitespace(w[1..][i]) by {
          forall i | 0 <= i < |w[1..]| ensures IsWhitespace(w[1..][i]) {
            assert w[1..][i] == w[i + 1];
          }
        }
      }
      if AllWhitespace(w) {
        forall i | 0 <= i < |w| ensures IsWhitespace(w[i]) {
          if i > 0 {
            assert w[i] == w[1..][i - 1];
          }
        }
      }
    }
  }

  /** `r` is the slice of `s` from `k`, with nothing but whitespace before it and after it. */
  predicate IsMiddle(s: string, k: nat, r: string) {
    && k + |r| <= |s| && r == s[k..k + |r|]
    && AllWhitespace(s[..k]) && AllWhitespace(s[k + |r|..])
  }

  /**
   * `trim` keeps a middle slice of the text and removes only whitespace on
   * either side of it; with `Trim`'s own postcondition, that slice neither
   * starts nor ends with whitespace, so all the surrounding whitespace is gone.
   */
  lemma TrimMiddle(s: string)
    ensures IsMiddle(s, |s| - |TrimStart(s)|, Trim(s))
  {
    MiddleSlice(s, TrimStart(s), Trim(s));
  }

  /** A suffix `t` of `s` after whitespace, cut down to a prefix `r` before whitespace, is a middle slice of `s`. */
  lemma MiddleSlice(s: string, t: string, r: string)
    requires |t| <= |s| && t == s[|s| - |t|..]
    requires forall i :: 0 <= i < |s| - |t| ==> IsWhitespace(s[i])
    requires |r| <= |t| && r == t[..|r|]
    requires forall i :: |r| <= i < |t| ==> IsWhitespace(t[i])
    ensures IsMiddle(s, |s| - |t|, r)
  {
    var k := |s| - |t|;
    assert AllWhitespace(s[..k]) by {
      AllWhitespaceMeans(s[..k]);
    }
    assert AllWhitespace(s[k + |r|..]) by {
      AllWhitespaceMeans(s[k + |r|..]);
    }
  }

  /** `s.split(sep)` for a one-character separator: never empty, and no part holds `sep`. */
  function Split(s: string, sep: char): (parts: seq<string>)
    ensures |parts| >= 1
    ensures forall i :: 0 <= i < |parts| ==> sep !in parts[i]
    decreases |s|
  {
    if s == [] then [""]
    else
      var rest := Split(s[1..], sep);
      if s[0] == sep then [""] + rest
      else [[s[0]] + rest[0]] + rest[1..]
  }

  /** `parts.join(sep)` for a one-character separator. */
  function Join(parts: seq<string>, sep: char): string
  {
    if |parts| == 0 then ""
    else if |parts| == 1 then parts[0]
    else Join(parts[..|parts| - 1], sep) + [sep] + parts[|parts| - 1]
  }

  /** Every part followed by `sep`: the text a loop that appends `part + sep` builds. */
  function Terminated(parts: seq<string>, sep: char): string
  {
    if parts == [] then "" else Terminated(parts[..|parts| - 1], sep) + parts[|parts| - 1] + [sep]
  }

  lemma {:induction false} SplitNoSeparator(s: string, sep: char)
    requires sep !in s
    ensures Split(s, sep) == [s]
    decreases |s|
  {
    if s != [] {
      SplitNoSeparator(s[1..], sep);
      assert [s[0]] + s[1..] == s;
    }
  }

  /** Splitting at one occurrence of the separator splits the two sides independently. */
  lemma {:induction false} SplitAppend(x: string, y: string, sep: char)
    ensures Split(x + [sep] + y, sep) == Split(x, sep) + Split(y, sep)
    decreases |x|
  {
    var s := x + [sep] + y;
    if x == [] {
      assert s[1..] == y;
    } else {
      assert s[1..] == x[1..] + [sep] + y;
      SplitAppend(x[1..], y, sep);
    }
  }

  lemma {:induction false} JoinCons(head: string, tail: seq<string>, sep: char)
    requires |tail| >= 1
    ensures Join([head] + tail, sep) == head + [sep] + Join(tail, sep)
    decreases |tail|
  {
    var parts := [head] + tail;
    if |tail| > 1 {
      assert parts[..|parts| - 1] == [head] + tail[..|tail| - 1];
      JoinCons(head, tail[..|tail| - 1], sep);
    }
  }

  /** A character put in front of the first part ends up in front of the join. */
  lemma JoinPrepend(c: char, parts: seq<string>, sep: char)
    requires |parts| >= 1
    ensures Join([[c] + parts[0]] + parts[1..], sep) == [c] + Join(parts, sep)
  {
    if |parts| > 1 {
      var more := Join(parts[1..], sep);
      assert Join(parts, sep) == parts[0] + [sep] + more by {
        assert [parts[0]] + parts[1..] == parts;
        JoinCons(parts[0], parts[1..], sep);
      }
      JoinCons([c] + parts[0], parts[1..], sep);
      assert [c] + parts[0] + [sep] + more == [c] + (parts[0] + [sep] + more);
    }
  }

  /** Joining the parts of a split gives back the original text. */
  lemma {:induction false} JoinSplit(s: string, sep: char)
    ensures Join(Split(s, sep), sep) == s
    decreases |s|
  {
    if s != [] {
      var tail := s[1..];
      var rest := Split(tail, sep);
      assert Join(rest, sep) == tail by {
        JoinSplit(tail, sep);
      }
      assert [s[0]] + tail == s;
      if s[0] == sep {
        assert Split(s, sep) == [""] + rest;
        JoinCons("", rest, sep);
      } else {
        assert Split(s, sep) == [[s[0]] + rest[0]] + rest[1..];
        JoinPrepend(s[0], rest, sep);
      }
    }
  }

  /** Splitting a join of separator-free parts gives back the parts. */
  lemma {:induction false} SplitJoin(parts: seq<string>, sep: char)
    requires |parts| >= 1
    requires forall i :: 0 <= i < |parts| ==> sep !in parts[i]
    ensures Split(Join(parts, sep), sep) == parts
    decreases |parts|
  {
    var n := |parts|;
    if n == 1 {
      SplitNoSeparator(parts[0], sep);
    } else {
      SplitJoin(parts[..n - 1], sep);
      SplitAppend(Join(parts[..n - 1], sep), parts[n - 1], sep);
      SplitNoSeparator(parts[n - 1], sep);
      assert parts[..n - 1] + [parts[n - 1]] == parts;
    }
  }

  /** The last part joined on to the terminated earlier parts is the whole join. */
  lemma {:induction false} JoinTerminated(parts: seq<string>, last: string, sep: char)
    ensures Join(parts + [last], sep) == Terminated(parts, sep) + last
    decreases |parts|
  {
    var all := parts + [last];
    assert all[..|all| - 1] == parts;
    if parts != [] {
      var n := |parts|;
      JoinTerminated(parts[..n - 1], parts[n - 1], sep);
      assert parts[..n - 1] + [parts[n - 1]] == parts;
    }
  }

  /** A trailing space does not survive `trim`, so it changes nothing. */
  lemma {:induction false} TrimAppendSpace(w: string)
    ensures Trim(w + " ") == Trim(w)
    decreases |w|
  {
    var s := w + " ";
    if w == [] {
    } else if IsWhitespace(w[0]) {
      assert s[1..] == w[1..] + " ";
      TrimAppendSpace(w[1..]);
    } else {
      assert TrimStart(s) == s;
      assert s[..|s| - 1] == w;
    }
  }

  /** A non-empty text ending in whitespace loses at least one character to `trim`. */
  lemma TrimDropsTrailing(s: string)
    requires s != [] && IsWhitespace(s[|s| - 1])
    ensures |Trim(s)| < |s|
  {
    var t := TrimStart(s);
    if t != [] {
      assert t[|t| - 1] == s[|s| - 1];
    }
  }

  /** Every character of every part of a split comes from the text split. */
  lemma {:induction false} SplitPartsWithin(s: string, sep: char)
    ensures forall i, c :: 0 <= i < |Split(s, sep)| && c in Split(s, sep)[i] ==> c in s
    decreases |s|
  {
    if s != [] {
      SplitPartsWithin(s[1..], sep);
      assert s == [s[0]] + s[1..];
    }
  }

  /** `trim` only removes characters. */
  lemma TrimWithin(s: string)
    ensures forall c :: c in Trim(s) ==> c in s
  {
    var t := TrimStart(s);
    assert forall c :: c in t ==> c in s by {
      forall c | c in t ensures c in s {
        var k :| 0 <= k < |t| && t[k] == c;
        assert s[|s| - |t| + k] == c;
      }
    }
    var r := TrimEnd(t);
    assert forall c :: c in r ==> c in t by {
      forall c | c in r ensures c in t {
        var k :| 0 <= k < |r| && r[k] == c;
        assert t[k] == c;
      }
    }
  }
}
