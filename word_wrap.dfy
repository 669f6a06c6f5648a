/**
 * Greedy word wrap, `wrapText(text, width)` of src/app.js.
 *
 * The text is split on single spaces.  A running line collects each word
 * followed by one space; before a word is added, the running line plus the
 * word (the trailing space already on the line counts, the new separator
 * does not) is compared with `width`.  When it is longer, the trimmed running
 * line and a newline go to the output and the word starts a new line.  The
 * trimmed remainder ends the output.
 *
 * The specification groups the words into the lines they land on; the method
 * `WrapText` is the loop of the source, proved to produce the same text.
 */
module WordWrap {
  import opened JsText

  /** A group of words as the running line holds it: every word followed by one space. */
  function Unwords(g: seq<string>): string
  {
    if g == [] then "" else Unwords(g[..|g| - 1]) + g[|g| - 1] + " "
  }

  /** One step of the greedy loop on the groups built so far. */
  function Place(groups: seq<seq<string>>, word: string, width: int): (r: seq<seq<string>>)
    requires groups != []
    ensures r != []
  {
    var last := groups[|groups| - 1];
    if |Unwords(last) + word| > width then groups + [[word]]
    else groups[..|groups| - 1] + [last + [word]]
  }

  /** The words grouped into lines by the greedy loop; the first group starts empty. */
  function Groups(words: seq<string>, width: int): (gs: seq<seq<string>>)
    ensures gs != []
  {
    if words == [] then [[]]
    else Place(Groups(words[..|words| - 1], width), words[|words| - 1], width)
  }

  /** Each group as it is written out: its running line, trimmed. */
  function Rendered(gs: seq<seq<string>>): (lines: seq<string>)
    ensures |lines| == |gs|
  {
    seq(|gs|, i requires 0 <= i < |gs| => Trim(Unwords(gs[i])))
  }

  /** The lines `wrapText` produces, in order. */
  function WrappedLines(text: string, width: int): seq<string>
  {
    Rendered(Groups(Split(text, ' '), width))
  }

  /** `wrapText(text, width)`: the lines joined by newlines. */
  function Wrap(text: string, width: int): string
  {
    Join(WrappedLines(text, width), '\n')
  }

  lemma RenderedPrefix(gs: seq<seq<string>>, k: nat)
    requires k <= |gs|
    ensures Rendered(gs[..k]) == Rendered(gs)[..k]
  {
  }

  lemma RenderedLast(gs: seq<seq<string>>)
    requires gs != []
    ensures Rendered(gs) == Rendered(gs[..|gs| - 1]) + [Trim(Unwords(gs[|gs| - 1]))]
  {
    var lines := Rendered(gs);
    RenderedPrefix(gs, |gs| - 1);
    assert lines == lines[..|lines| - 1] + [lines[|lines| - 1]];
  }

  lemma UnwordsSingle(word: string)
    ensures Unwords([word]) == word + " "
  {
    assert [word][..0] == [];
    assert Unwords([word]) == Unwords([]) + word + " ";
  }

  /** A step that flushes: the running line goes out trimmed, and the word starts a new line. */
  lemma PlaceFlushes(gs: seq<seq<string>>, word: string, width: int)
    requires gs != [] && |Unwords(gs[|gs| - 1]) + word| > width
    ensures var r := Place(gs, word, width);
            && Terminated(Rendered(r[..|r| - 1]), '\n') == Terminated(Rendered(gs[..|gs| - 1]), '\n') + Trim(Unwords(gs[|gs| - 1])) + "\n"
            && Unwords(r[|r| - 1]) == word + " "
  {
    var r := Place(gs, word, width);
    assert r[..|r| - 1] == gs;
    var lines := Rendered(gs);
    RenderedPrefix(gs, |gs| - 1);
    assert lines[..|lines| - 1] == Rendered(gs[..|gs| - 1]);
    assert r[|r| - 1] == [word];
    UnwordsSingle(word);
  }

  /** A step that extends: nothing is flushed, and the word joins the running line. */
  lemma PlaceExtends(gs: seq<seq<string>>, word: string, width: int)
    requires gs != [] && |Unwords(gs[|gs| - 1]) + word| <= width
    ensures var r := Place(gs, word, width);
            && r[..|r| - 1] == gs[..|gs| - 1]
            && Unwords(r[|r| - 1]) == Unwords(gs[|gs| - 1]) + word + " "
  {
    var last := gs[|gs| - 1];
    assert (last + [word])[..|last|] == last;
  }

  /** The loop of `wrapText`, building the output and the running line in place. */
  method WrapText(text: string, width: int) returns (wrappedText: string)
    ensures wrappedText == Wrap(text, width)
  {
    var words := Split(text, ' ');
    wrappedText := "";
    var currentLine := "";
    ghost var gs: seq<seq<string>> := [[]];
    for i := 0 to |words|
      invariant gs == Groups(words[..i], width)
      invariant currentLine == Unwords(gs[|gs| - 1])
      invariant wrappedText == Terminated(Rendered(gs[..|gs| - 1]), '\n')
    {
      var word := words[i];
      assert words[..i + 1][..i] == words[..i];
      if |currentLine + word| > width {
        PlaceFlushes(gs, word, width);
        wrappedText := wrappedText + Trim(currentLine) + "\n";
        currentLine := word + " ";
      } else {
        PlaceExtends(gs, word, width);
        currentLine := currentLine + word + " ";
      }
      gs := Place(gs, word, width);
    }
    assert words[..|words|] == words;
    RenderedLast(gs);
    JoinTerminated(Rendered(gs[..|gs| - 1]), Trim(currentLine), '\n');
    wrappedText := wrappedText + Trim(currentLine);
  }

  // ---------------------------------------------------------------------
  // What the greedy grouping keeps true

  /** All words of the groups, in order. */
  function Flatten(gs: seq<seq<string>>): seq<string>
  {
    if gs == [] then [] else Flatten(gs[..|gs| - 1]) + gs[|gs| - 1]
  }

  /** One step of the loop appends the word to the words of the groups. */
  lemma PlaceFlatten(gs: seq<seq<string>>, word: string, width: int)
    requires gs != []
    ensures Flatten(Place(gs, word, width)) == Flatten(gs) + [word]
  {
    var last := gs[|gs| - 1];
    var r := Place(gs, word, width);
    assert Flatten(gs) == Flatten(gs[..|gs| - 1]) + last;
    if |Unwords(last) + word| > width {
      assert r[..|r| - 1] == gs;
    } else {
      assert r[..|r| - 1] == gs[..|gs| - 1];
    }
  }

  /** Grouping neither drops nor reorders words. */
  lemma {:induction false} GroupsKeepWords(words: seq<string>, width: int)
    ensures Flatten(Groups(words, width)) == words
    decreases |words|
  {
    if words != [] {
      var n := |words|;
      var prev := words[..n - 1];
      GroupsKeepWords(prev, width);
      PlaceFlatten(Groups(prev, width), words[n - 1], width);
      assert prev + [words[n - 1]] == words;
    }
  }

  lemma {:induction false} InFlatten(gs: seq<seq<string>>, i: nat, j: nat)
    requires i < |gs| && j < |gs[i]|
    ensures gs[i][j] in Flatten(gs)
    decreases |gs|
  {
    if i < |gs| - 1 {
      InFlatten(gs[..|gs| - 1], i, j);
    }
  }

  /** Only the first group can be empty. */
  ghost predicate TailNonEmpty(gs: seq<seq<string>>) {
    forall i :: 0 < i < |gs| ==> gs[i] != []
  }

  /** Groups of two words or more, and a one-word first group, passed the width test. */
  ghost predicate Fits(gs: seq<seq<string>>, width: int) {
    forall i :: 0 <= i < |gs| && (|gs[i]| >= 2 || (i == 0 && |gs[i]| == 1)) ==> |Unwords(gs[i])| <= width + 1
  }

  lemma PlaceKeepsShape(gs: seq<seq<string>>, word: string, width: int)
    requires gs != [] && TailNonEmpty(gs) && Fits(gs, width)
    ensures TailNonEmpty(Place(gs, word, width)) && Fits(Place(gs, word, width), width)
  {
    var last := gs[|gs| - 1];
    var r := Place(gs, word, width);
    if |Unwords(last) + word| > width {
      assert r == gs + [[word]];
      assert forall i :: 0 <= i < |gs| ==> r[i] == gs[i];
    } else {
      var ext := last + [word];
      assert r == gs[..|gs| - 1] + [ext];
      assert ext[..|last|] == last;
      assert Unwords(ext) == Unwords(last) + word + " ";
      assert forall i :: 0 <= i < |gs| - 1 ==> r[i] == gs[i];
    }
  }

  /** Only the first group can be empty, and every group that passed the width test fits. */
  lemma {:induction false} GroupsShape(words: seq<string>, width: int)
    ensures TailNonEmpty(Groups(words, width)) && Fits(Groups(words, width), width)
    decreases |words|
  {
    if words != [] {
      var n := |words|;
      GroupsShape(words[..n - 1], width);
      PlaceKeepsShape(Groups(words[..n - 1], width), words[n - 1], width);
    }
  }

  /** A word longer than the width ends up as a group of its own. */
  lemma {:induction false} LongWordGroups(words: seq<string>, width: int)
    ensures var gs := Groups(words, width);
            forall j :: 0 <= j < |words| && |words[j]| > width ==> [words[j]] in gs
    decreases |words|
  {
    if words != [] {
      var n := |words|;
      var prev := words[..n - 1];
      var w := words[n - 1];
      var gs := Groups(prev, width);
      var last := gs[|gs| - 1];
      var r := Place(gs, w, width);
      assert Groups(words, width) == r;
      LongWordGroups(prev, width);
      var flush := |Unwords(last) + w| > width;
      forall j | 0 <= j < n && |words[j]| > width ensures [words[j]] in r {
        if j == n - 1 {
          assert flush;
          assert r[|r| - 1] == [w];
        } else {
          assert prev[j] == words[j];
          var k :| 0 <= k < |gs| && gs[k] == [words[j]];
          if !flush {
            UnwordsSingle(words[j]);
            assert |Unwords(gs[k])| > |Unwords(last)|;
            assert k < |gs| - 1;
          }
          assert r[k] == gs[k];
        }
      }
    }
  }

  /** When the first word is too long, the empty first line is flushed before it. */
  lemma {:induction false} FirstGroupEmpty(words: seq<string>, width: int, k: nat)
    requires 1 <= k <= |words| && |words[0]| > width
    ensures var gs := Groups(words[..k], width);
            |gs| >= 2 && gs[0] == []
    decreases k
  {
    if k == 1 {
      assert words[..1][..0] == [];
    } else {
      FirstGroupEmpty(words, width, k - 1);
      assert words[..k][..k - 1] == words[..k - 1];
    }
  }

  /** Words whose running line stays within the width all share one line. */
  lemma {:induction false} OneGroup(words: seq<string>, width: int)
    requires |Unwords(words)| <= width + 1
    ensures Groups(words, width) == [words]
    decreases |words|
  {
    if words != [] {
      var n := |words|;
      OneGroup(words[..n - 1], width);
      assert words[..n - 1] + [words[n - 1]] == words;
    }
  }

  lemma {:induction false} UnwordsJoin(ws: seq<string>)
    requires |ws| >= 1
    ensures Unwords(ws) == Join(ws, ' ') + " "
    decreases |ws|
  {
    if |ws| > 1 {
      UnwordsJoin(ws[..|ws| - 1]);
    } else {
      assert ws[..0] == [];
    }
  }

  // ---------------------------------------------------------------------
  // Characters of the output

  /** Every character of `s` is a space or occurs in `text`. */
  ghost predicate Within(s: string, text: string) {
    forall c :: c in s ==> c == ' ' || c in text
  }

  lemma {:induction false} UnwordsWithin(g: seq<string>, text: string)
    requires forall j :: 0 <= j < |g| ==> Within(g[j], text)
    ensures Within(Unwords(g), text)
    decreases |g|
  {
    if g != [] {
      UnwordsWithin(g[..|g| - 1], text);
    }
  }

  /** Every wrapped line is made of the text's own characters and spaces. */
  lemma LinesWithin(text: string, width: int)
    ensures forall i :: 0 <= i < |WrappedLines(text, width)| ==> Within(WrappedLines(text, width)[i], text)
  {
    var words := Split(text, ' ');
    var gs := Groups(words, width);
    SplitPartsWithin(text, ' ');
    GroupsKeepWords(words, width);
    forall i | 0 <= i < |gs| ensures Within(Trim(Unwords(gs[i])), text) {
      forall j | 0 <= j < |gs[i]| ensures Within(gs[i][j], text) {
        InFlatten(gs, i, j);
      }
      UnwordsWithin(gs[i], text);
      TrimWithin(Unwords(gs[i]));
    }
  }

  // ---------------------------------------------------------------------
  // Properties of wrapText

  /** The empty text wraps to the empty text exactly when the width is not negative. */
  lemma WrapEmpty(width: int)
    ensures Wrap("", width) == (if width >= 0 then "" else "\n")
  {
    var words := Split("", ' ');
    assert words == [""];
    var none: seq<string> := [];
    var single: seq<string> := [""];
    assert words[..0] == [];
    assert Groups(words[..0], width) == [none];
    var gs := Groups(words, width);
    assert gs == Place([none], "", width);
    assert single[..0] == none;
    assert Unwords(single) == " ";
    assert Trim(" ") == "";
    if width >= 0 {
      assert [none][..0] == [];
      assert none + [""] == single;
      assert gs == [single];
      assert WrappedLines("", width) == [""];
    } else {
      assert gs == [none, single];
      var lines := WrappedLines("", width);
      assert lines == ["", ""];
      assert lines[..1] == [""];
      assert Join(lines[..1], '\n') == "";
      assert Join(lines, '\n') == "" + "\n" + "";
    }
  }

  /** Reading the output line by line gives back exactly the wrapped lines. */
  lemma OutputLines(text: string, width: int)
    requires '\n' !in text
    ensures Split(Wrap(text, width), '\n') == WrappedLines(text, width)
  {
    var lines := WrappedLines(text, width);
    LinesWithin(text, width);
    forall i | 0 <= i < |lines| ensures '\n' !in lines[i] {
      assert Within(lines[i], text);
    }
    SplitJoin(lines, '\n');
  }

  /** The width bound for one line, stated on the groups. */
  lemma GroupLineFits(words: seq<string>, width: int, i: nat)
    requires 0 <= width
    requires i < |Groups(words, width)|
    ensures var g := Groups(words, width)[i];
            |Trim(Unwords(g))| <= width || (|g| == 1 && g[0] in words && |g[0]| > width && Trim(Unwords(g)) == Trim(g[0]))
  {
    var gs := Groups(words, width);
    var g := gs[i];
    GroupsShape(words, width);
    if g == [] {
      assert Trim("") == "";
    } else if |g| >= 2 || i == 0 {
      TrimDropsTrailing(Unwords(g));
    } else {
      assert g[..0] == [];
      assert Unwords(g) == g[0] + " ";
      TrimAppendSpace(g[0]);
      GroupsKeepWords(words, width);
      InFlatten(gs, i, 0);
    }
  }

  /**
   * Every output line fits the width, except a line holding one single word
   * longer than the width, which is that word (trimmed) and nothing else.
   */
  lemma LinesFit(text: string, width: int)
    requires 0 <= width && '\n' !in text
    ensures var lines := Split(Wrap(text, width), '\n');
            forall i :: 0 <= i < |lines| ==>
              |lines[i]| <= width || exists w :: w in Split(text, ' ') && |w| > width && lines[i] == Trim(w)
  {
    OutputLines(text, width);
    var words := Split(text, ' ');
    var gs := Groups(words, width);
    var lines := Rendered(gs);
    forall i | 0 <= i < |lines|
      ensures |lines[i]| <= width || exists w :: w in words && |w| > width && lines[i] == Trim(w)
    {
      GroupLineFits(words, width, i);
    }
  }

  /** A word longer than the width is never split: it stands, trimmed, as a whole output line. */
  lemma LongWordsWhole(text: string, width: int)
    requires '\n' !in text
    ensures forall w :: w in Split(text, ' ') && |w| > width ==> Trim(w) in Split(Wrap(text, width), '\n')
  {
    var words := Split(text, ' ');
    var gs := Groups(words, width);
    var lines := Rendered(gs);
    assert Split(Wrap(text, width), '\n') == lines by {
      OutputLines(text, width);
    }
    forall w | w in words && |w| > width ensures Trim(w) in lines {
      var j :| 0 <= j < |words| && words[j] == w;
      assert [w] in gs by {
        LongWordGroups(words, width);
      }
      var k :| 0 <= k < |gs| && gs[k] == [w];
      assert lines[k] == Trim(Unwords([w]));
      assert Trim(Unwords([w])) == Trim(w) by {
        UnwordsSingle(w);
        TrimAppendSpace(w);
      }
    }
  }

  /** Lines that start with an empty one are joined into a text that starts with a newline. */
  lemma JoinLeadingEmpty(lines: seq<string>)
    requires |lines| >= 2 && lines[0] == ""
    ensures var out := Join(lines, '\n'); out != [] && out[0] == '\n'
  {
    JoinCons(lines[0], lines[1..], '\n');
    assert [lines[0]] + lines[1..] == lines;
  }

  /** A first word longer than the width makes the output start with an empty line. */
  lemma LeadingNewline(text: string, width: int)
    requires |Split(text, ' ')[0]| > width
    ensures var out := Wrap(text, width); out != [] && out[0] == '\n'
  {
    var words := Split(text, ' ');
    var gs := Groups(words, width);
    assert |gs| >= 2 && gs[0] == [] by {
      FirstGroupEmpty(words, width, |words|);
      assert words[..|words|] == words;
    }
    var lines := Rendered(gs);
    assert lines[0] == "" by {
      assert lines[0] == Trim(Unwords([]));
    }
    JoinLeadingEmpty(lines);
  }

  /** A text that fits the width and has no surrounding whitespace comes out unchanged. */
  lemma FitsOnOneLine(text: string, width: int)
    requires |text| <= width
    requires text == [] || (!IsWhitespace(text[0]) && !IsWhitespace(text[|text| - 1]))
    ensures Wrap(text, width) == text
  {
    var words := Split(text, ' ');
    UnwordsJoin(words);
    JoinSplit(text, ' ');
    OneGroup(words, width);
    assert Trim(text + " ") == text by {
      TrimAppendSpace(text);
      assert TrimStart(text) == text;
    }
    assert WrappedLines(text, width) == [text];
  }

  // ---------------------------------------------------------------------
  // Words are neither dropped nor reordered

  /** The words of a list that are not empty, in order. */
  function NonEmpty(ws: seq<string>): (r: seq<string>)
    ensures forall i :: 0 <= i < |r| ==> r[i] != ""
  {
    if ws == [] then []
    else NonEmpty(ws[..|ws| - 1]) + (if ws[|ws| - 1] == "" then [] else [ws[|ws| - 1]])
  }

  /** The words of a text as a reader sees them: the non-empty parts between spaces. */
  function Tokens(s: string): seq<string>
  {
    NonEmpty(Split(s, ' '))
  }

  /** The words of each line, line after line. */
  function TokensOfLines(lines: seq<string>): seq<string>
  {
    if lines == [] then [] else TokensOfLines(lines[..|lines| - 1]) + Tokens(lines[|lines| - 1])
  }

  /** A text whose only whitespace character is the space. */
  ghost predicate PlainText(s: string) {
    forall c :: c in s ==> c == ' ' || !IsWhitespace(c)
  }

  lemma {:induction false} NonEmptyAppend(a: seq<string>, b: seq<string>)
    ensures NonEmpty(a + b) == NonEmpty(a) + NonEmpty(b)
    decreases |b|
  {
    if b != [] {
      var n := |b|;
      assert (a + b)[..|a + b| - 1] == a + b[..n - 1];
      NonEmptyAppend(a, b[..n - 1]);
    } else {
      assert a + b == a;
    }
  }

  lemma TokensAtSpace(x: string, y: string)
    ensures Tokens(x + " " + y) == Tokens(x) + Tokens(y)
  {
    SplitAppend(x, y, ' ');
    NonEmptyAppend(Split(x, ' '), Split(y, ' '));
  }

  lemma TokensOfWord(w: string)
    requires ' ' !in w
    ensures Tokens(w) == NonEmpty([w])
  {
    SplitNoSeparator(w, ' ');
  }

  lemma TokensEmpty()
    ensures Tokens("") == []
  {
    assert Split("", ' ') == [""];
    assert [""][..0] == [];
  }

  lemma TokensEndSpace(x: string)
    ensures Tokens(x + " ") == Tokens(x)
  {
    TokensAtSpace(x, "");
    TokensEmpty();
    assert x + " " + "" == x + " ";
  }

  /** A running line followed by a word reads as the line's words, then the word's. */
  lemma TokensAfterUnwords(g: seq<string>, w: string)
    ensures Tokens(Unwords(g) + w) == Tokens(Unwords(g)) + Tokens(w)
  {
    if g == [] {
      TokensEmpty();
      assert Unwords(g) + w == w;
    } else {
      var u := Unwords(g[..|g| - 1]) + g[|g| - 1];
      assert Unwords(g) == u + " ";
      TokensEndSpace(u);
      assert Unwords(g) + w == u + " " + w;
      TokensAtSpace(u, w);
    }
  }

  /** The running line of a group reads back as the group's non-empty words. */
  lemma {:induction false} TokensUnwords(g: seq<string>)
    requires forall j :: 0 <= j < |g| ==> ' ' !in g[j]
    ensures Tokens(Unwords(g)) == NonEmpty(g)
    decreases |g|
  {
    if g != [] {
      var n := |g|;
      var init := g[..n - 1];
      var w := g[n - 1];
      TokensUnwords(init);
      TokensEndSpace(Unwords(init) + w);
      TokensAfterUnwords(init, w);
      TokensOfWord(w);
      NonEmptyAppend(init, [w]);
      assert init + [w] == g;
      assert [w][..0] == [];
    }
  }

  lemma {:induction false} TokensTrimStart(s: string)
    requires PlainText(s)
    ensures Tokens(TrimStart(s)) == Tokens(s)
    decreases |s|
  {
    if s != [] && IsWhitespace(s[0]) {
      assert s[0] == ' ';
      assert s == "" + " " + s[1..];
      TokensAtSpace("", s[1..]);
      assert Tokens("") == [];
      TokensTrimStart(s[1..]);
    }
  }

  lemma {:induction false} TokensTrimEnd(s: string)
    requires PlainText(s)
    ensures Tokens(TrimEnd(s)) == Tokens(s)
    decreases |s|
  {
    if s != [] && IsWhitespace(s[|s| - 1]) {
      var init := s[..|s| - 1];
      assert s[|s| - 1] in s;
      assert s == init + " " + "";
      TokensAtSpace(init, "");
      assert Tokens("") == [];
      TokensTrimEnd(init);
    }
  }

  /** In a plain text, trimming removes no word. */
  lemma TokensTrim(s: string)
    requires PlainText(s)
    ensures Tokens(Trim(s)) == Tokens(s)
  {
    TokensTrimStart(s);
    TokensTrimEnd(TrimStart(s));
  }

  lemma {:induction false} UnwordsPlain(g: seq<string>)
    requires forall j :: 0 <= j < |g| ==> PlainText(g[j])
    ensures PlainText(Unwords(g))
    decreases |g|
  {
    if g != [] {
      UnwordsPlain(g[..|g| - 1]);
    }
  }

  /** One rendered line of a plain, space-free group reads back as the group's non-empty words. */
  lemma TokensOfGroupLine(g: seq<string>)
    requires forall j :: 0 <= j < |g| ==> ' ' !in g[j] && PlainText(g[j])
    ensures Tokens(Trim(Unwords(g))) == NonEmpty(g)
  {
    UnwordsPlain(g);
    TokensTrim(Unwords(g));
    TokensUnwords(g);
  }

  /** The rendered lines of plain, space-free groups read back as all their non-empty words. */
  lemma {:induction false} TokensOfGroups(gs: seq<seq<string>>)
    requires forall i, j :: 0 <= i < |gs| && 0 <= j < |gs[i]| ==> ' ' !in gs[i][j] && PlainText(gs[i][j])
    ensures TokensOfLines(Rendered(gs)) == NonEmpty(Flatten(gs))
    decreases |gs|
  {
    if gs != [] {
      var n := |gs|;
      var init := gs[..n - 1];
      var last := gs[n - 1];
      var lines := Rendered(gs);
      assert TokensOfLines(Rendered(init)) == NonEmpty(Flatten(init)) by {
        forall i, j | 0 <= i < |init| && 0 <= j < |init[i]| ensures ' ' !in init[i][j] && PlainText(init[i][j]) {
          assert init[i] == gs[i];
        }
        TokensOfGroups(init);
      }
      assert TokensOfLines(lines) == TokensOfLines(Rendered(init)) + Tokens(Trim(Unwords(last))) by {
        RenderedLast(gs);
        assert lines[..n - 1] == Rendered(init);
        assert TokensOfLines(lines) == TokensOfLines(lines[..n - 1]) + Tokens(lines[n - 1]);
      }
      assert Tokens(Trim(Unwords(last))) == NonEmpty(last) by {
        TokensOfGroupLine(last);
      }
      NonEmptyAppend(Flatten(init), last);
    }
  }

  /**
   * In a text whose only whitespace is the space, reading the output line by
   * line and each line word by word gives the words of the text in order.
   */
  lemma WordsKept(text: string, width: int)
    requires PlainText(text)
    ensures TokensOfLines(Split(Wrap(text, width), '\n')) == Tokens(text)
  {
    assert IsWhitespace('\n');
    OutputLines(text, width);
    var words := Split(text, ' ');
    var gs := Groups(words, width);
    GroupsKeepWords(words, width);
    SplitPartsWithin(text, ' ');
    forall i, j | 0 <= i < |gs| && 0 <= j < |gs[i]| ensures ' ' !in gs[i][j] && PlainText(gs[i][j]) {
      InFlatten(gs, i, j);
    }
    TokensOfGroups(gs);
  }
}
