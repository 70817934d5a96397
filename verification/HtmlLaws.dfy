/** What text a document has, said of its text and tags in order, and of its entities (src/digest.rs). */
module HtmlLaws {
  import opened Text
  import opened Html

  // ----- entities -----

  const ENTITIES: seq<string> := ["&nbsp;", "&amp;", "&lt;", "&gt;", "&quot;", "&#39;"]
  const SHOWN: seq<char> := [' ', '&', '<', '>', '\"', '\'']

  const AMP: nat := 1

  /** A text as its author means it: characters other than '&', and entities. */
  datatype Token = Char(c: char) | Entity(k: nat)

  predicate IsToken(t: Token) {
    match t
    case Char(c) => c != '&'
    case Entity(k) => k < 6
  }

  predicate AreTokens(tokens: seq<Token>) {
    forall i | 0 <= i < |tokens| :: IsToken(tokens[i])
  }

  /** The text while the entities below `n` are replaced. */
  function Shown(tokens: seq<Token>, n: nat): string
    requires AreTokens(tokens)
  {
    if tokens == [] then ""
    else
      (match tokens[0]
       case Char(c) => [c]
       case Entity(k) => if k < n then [SHOWN[k]] else ENTITIES[k])
      + Shown(tokens[1..], n)
  }

  /** The characters from `i` on spell a word. */
  predicate SpelledAt(tokens: seq<Token>, i: nat, word: string) {
    && i + |word| <= |tokens|
    && forall k | 0 <= k < |word| :: tokens[i + k] == Char(word[k])
  }

  /** No ampersand entity stands where, once it is replaced, it begins another entity. */
  predicate NoDouble(tokens: seq<Token>) {
    forall i | 0 <= i < |tokens| && tokens[i] == Entity(AMP) ::
      forall k | AMP < k < 6 :: !SpelledAt(tokens, i + 1, ENTITIES[k][1..])
  }

  lemma {:induction false} ShownSpells(tokens: seq<Token>, n: nat, word: string)
    requires AreTokens(tokens) && word <= Shown(tokens, n)
    requires forall c | c in word :: c !in "& <>\"'"
    ensures SpelledAt(tokens, 0, word)
  {
    if word != "" {
      assert tokens != [];
      var rest := Shown(tokens[1..], n);
      var s := Shown(tokens, n);
      assert word[0] in word && s[0] == word[0];
      match tokens[0] {
        case Char(c) =>
          assert s[1..] == rest;
          assert word[1..] <= rest;
          assert forall c | c in word[1..] :: c in word;
          ShownSpells(tokens[1..], n, word[1..]);
          assert forall k | 0 <= k < |word| - 1 :: tokens[1..][k] == tokens[k + 1] && word[1..][k] == word[k + 1];
        case Entity(k) =>
          assert false;
      }
    }
  }

  lemma {:induction false} SkipPlain(a: string, b: string, pattern: string, with: string)
    requires pattern != "" && pattern[0] !in a
    ensures Replace(a + b, pattern, with) == a + Replace(b, pattern, with)
  {
    if a == "" {
      assert a + b == b;
    } else {
      assert (a + b)[1..] == a[1..] + b && (a + b)[0] == a[0] && a[0] in a;
      assert forall c | c in a[1..] :: c in a;
      SkipPlain(a[1..], b, pattern, with);
      ReplaceSkip(a + b, pattern, with);
      assert a == [a[0]] + a[1..];
    }
  }

  lemma EntityParts(k: nat)
    requires k < 6
    ensures |ENTITIES[k]| > 2 && ENTITIES[k][0] == '&' && ENTITIES[k][1] == "nalgq#"[k]
    ensures '&' !in ENTITIES[k][1..]
    ensures forall c | c in ENTITIES[k][1..] :: c !in "& <>\"'"
  {
  }

  lemma Distinct(j: nat, k: nat)
    requires j < 6 && k < 6 && j != k
    ensures "nalgq#"[j] != "nalgq#"[k]
  {
  }

  /** One replacement shows one more kind of entity. */
  lemma {:induction false} ReplaceShown(tokens: seq<Token>, n: nat)
    requires AreTokens(tokens) && (n <= AMP || NoDouble(tokens)) && n < 6
    ensures Replace(Shown(tokens, n), ENTITIES[n], [SHOWN[n]]) == Shown(tokens, n + 1)
  {
    hide Replace, NoDouble;
    var pattern, with := ENTITIES[n], [SHOWN[n]];
    EntityParts(n);
    if tokens == [] {
      NothingReplaced(pattern, with);
    } else {
      var rest := Shown(tokens[1..], n);
      if n > AMP {
        RestNoDouble(tokens);
      }
      ReplaceShown(tokens[1..], n);
      match tokens[0] {
        case Char(c) => SkipPlain([c], rest, pattern, with);
        case Entity(k) =>
          EntityParts(k);
          if k == n {
            ReplaceMatch(rest, pattern, with);
          } else if k > n {
            SkipEntity(k, n, rest);
          } else {
            ShownBefore(tokens, n, k);
          }
      }
    }
  }

  lemma SkipEntity(k: nat, n: nat, rest: string)
    requires n < k < 6
    ensures Replace(ENTITIES[k] + rest, ENTITIES[n], [SHOWN[n]]) == ENTITIES[k] + Replace(rest, ENTITIES[n], [SHOWN[n]])
  {
    hide Replace;
    EntityParts(k);
    EntityParts(n);
    Distinct(k, n);
    var e := ENTITIES[k];
    assert (e + rest)[1] == e[1];
    ReplaceSkip(e + rest, ENTITIES[n], [SHOWN[n]]);
    assert (e + rest)[1..] == e[1..] + rest && [e[0]] + e[1..] == e;
    SkipPlain(e[1..], rest, ENTITIES[n], [SHOWN[n]]);
  }

  lemma NothingReplaced(pattern: string, with: string)
    requires pattern != ""
    ensures Replace("", pattern, with) == ""
  {
  }

  lemma SpelledRest(tokens: seq<Token>, i: nat, word: string)
    requires tokens != []
    ensures SpelledAt(tokens[1..], i, word) <==> SpelledAt(tokens, i + 1, word)
  {
    if SpelledAt(tokens[1..], i, word) {
      forall k | 0 <= k < |word|
        ensures tokens[i + 1 + k] == Char(word[k])
      {
        assert tokens[1..][i + k] == Char(word[k]);
      }
    }
    if SpelledAt(tokens, i + 1, word) {
      forall k | 0 <= k < |word|
        ensures tokens[1..][i + k] == Char(word[k])
      {
        assert tokens[i + 1 + k] == Char(word[k]);
      }
    }
  }

  lemma RestNoDouble(tokens: seq<Token>)
    requires tokens != [] && NoDouble(tokens)
    ensures NoDouble(tokens[1..])
  {
    var rest := tokens[1..];
    forall i, k | 0 <= i < |rest| && rest[i] == Entity(AMP) && AMP < k < 6
      ensures !SpelledAt(rest, i + 1, ENTITIES[k][1..])
    {
      assert tokens[i + 1] == Entity(AMP);
      SpelledRest(tokens, i + 1, ENTITIES[k][1..]);
    }
  }

  lemma AmpersandAlone(tokens: seq<Token>, n: nat)
    requires AreTokens(tokens) && NoDouble(tokens) && AMP < n < 6
    requires tokens != [] && tokens[0] == Entity(AMP)
    ensures !(ENTITIES[n] <= "&" + Shown(tokens[1..], n))
  {
    EntityParts(n);
    var rest, word := Shown(tokens[1..], n), ENTITIES[n][1..];
    SpelledRest(tokens, 0, word);
    assert !SpelledAt(tokens, 1, word);
    if ENTITIES[n] <= "&" + rest {
      assert word == ("&" + rest)[1..|word| + 1] == rest[..|word|];
      ShownSpells(tokens[1..], n, word);
    }
  }

  /** A character that an entity was replaced by stays. */
  lemma ShownBefore(tokens: seq<Token>, n: nat, k: nat)
    requires AreTokens(tokens) && (n <= AMP || NoDouble(tokens)) && n < 6
    requires tokens != [] && tokens[0] == Entity(k) && k < n
    ensures Replace([SHOWN[k]] + Shown(tokens[1..], n), ENTITIES[n], [SHOWN[n]])
         == [SHOWN[k]] + Replace(Shown(tokens[1..], n), ENTITIES[n], [SHOWN[n]])
  {
    hide Replace;
    EntityParts(n);
    var rest, pattern := Shown(tokens[1..], n), ENTITIES[n];
    var s := [SHOWN[k]] + rest;
    assert s[1..] == rest;
    if k == AMP {
      AmpersandAlone(tokens, n);
      ReplaceSkip(s, pattern, [SHOWN[n]]);
    } else {
      SkipPlain([SHOWN[k]], rest, pattern, [SHOWN[n]]);
    }
  }

  lemma NothingShown(tokens: seq<Token>)
    requires AreTokens(tokens)
    ensures Shown(tokens, 6) == Meaning(tokens)
  {
    if tokens != [] {
      NothingShown(tokens[1..]);
    }
  }

  /** What the author means. */
  function Meaning(tokens: seq<Token>): string
    requires AreTokens(tokens)
  {
    if tokens == [] then ""
    else [match tokens[0] case Char(c) => c case Entity(k) => SHOWN[k]] + Meaning(tokens[1..])
  }

  /** Unescaping gives what is meant, wherever no replaced ampersand begins another entity; */
  lemma Unescaped(tokens: seq<Token>)
    requires AreTokens(tokens) && NoDouble(tokens)
    ensures HtmlUnescape(Shown(tokens, 0)) == Meaning(tokens)
  {
    hide Replace, Shown, NoDouble, AreTokens;
    ReplaceShown(tokens, 0);
    ReplaceShown(tokens, 1);
    ReplaceShown(tokens, 2);
    ReplaceShown(tokens, 3);
    ReplaceShown(tokens, 4);
    ReplaceShown(tokens, 5);
    NothingShown(tokens);
  }

  /** where one does, it is unescaped twice, because the ampersand comes before all but the blank. */
  lemma UnescapedTwice(k: nat)
    requires AMP < k < 6
    ensures HtmlUnescape("&amp;" + ENTITIES[k][1..]) == [SHOWN[k]]
    ensures HtmlUnescape("&amp;nbsp;") == "&nbsp;"
  {
    hide Replace, Shown;
    EntityParts(k);
    AmpersandThen(ENTITIES[k][1..]);
    var once := [Entity(k)];
    ReplaceShown(once, 2);
    ReplaceShown(once, 3);
    ReplaceShown(once, 4);
    ReplaceShown(once, 5);
    OneEntity(k);
    Blank();
  }

  lemma Blank()
    ensures HtmlUnescape("&amp;nbsp;") == "&nbsp;"
  {
    hide Replace, Shown, NoDouble;
    var tokens := [Entity(AMP)] + Chars("nbsp;");
    CharsShown("nbsp;");
    FirstShown(Entity(AMP), Chars("nbsp;"), 0);
    assert tokens[0] == Entity(AMP) && forall i | 1 <= i < |tokens| :: tokens[i].Char?;
    NoDoubleBlank();
    Unescaped(tokens);
    FirstShown(Entity(AMP), Chars("nbsp;"), 6);
    NothingShown(tokens);
    assert "&amp;" + "nbsp;" == "&amp;nbsp;" && "&" + "nbsp;" == "&nbsp;";
  }

  lemma NoDoubleBlank()
    ensures NoDouble([Entity(AMP)] + Chars("nbsp;"))
  {
    var tokens := [Entity(AMP)] + Chars("nbsp;");
    assert tokens[1] == Char('n');
    forall i, k | 0 <= i < |tokens| && tokens[i] == Entity(AMP) && AMP < k < 6
      ensures !SpelledAt(tokens, i + 1, ENTITIES[k][1..])
    {
      assert i == 0;
      EntityParts(k);
      assert ENTITIES[k][1..][0] == ENTITIES[k][1] != 'n';
      assert tokens[1 + 0] != Char(ENTITIES[k][1..][0]);
    }
  }

  function Chars(s: string): (tokens: seq<Token>)
    ensures |tokens| == |s| && forall i | 0 <= i < |s| :: tokens[i] == Char(s[i])
  {
    seq(|s|, i requires 0 <= i < |s| => Char(s[i]))
  }

  lemma {:induction false} CharsShown(s: string)
    requires '&' !in s
    ensures AreTokens(Chars(s)) && forall n: nat :: Shown(Chars(s), n) == s
  {
    if s != "" {
      assert forall c | c in s[1..] :: c in s;
      CharsShown(s[1..]);
      assert Chars(s)[1..] == Chars(s[1..]);
    }
  }

  lemma FirstShown(t: Token, rest: seq<Token>, n: nat)
    requires IsToken(t) && AreTokens(rest)
    ensures AreTokens([t] + rest)
    ensures Shown([t] + rest, n)
         == (match t case Char(c) => [c] case Entity(k) => if k < n then [SHOWN[k]] else ENTITIES[k]) + Shown(rest, n)
  {
    assert ([t] + rest)[1..] == rest;
  }

  /** The first two replacements leave an ampersand and the word. */
  lemma AmpersandThen(word: string)
    requires '&' !in word
    ensures Replace(Replace("&amp;" + word, ENTITIES[0], [SHOWN[0]]), ENTITIES[1], [SHOWN[1]]) == "&" + word
  {
    hide Replace, Shown;
    var tokens := [Entity(AMP)] + Chars(word);
    CharsShown(word);
    FirstShown(Entity(AMP), Chars(word), 0);
    FirstShown(Entity(AMP), Chars(word), 2);
    ReplaceShown(tokens, 0);
    ReplaceShown(tokens, 1);
  }

  lemma OneEntity(k: nat)
    requires AMP < k < 6
    ensures Shown([Entity(k)], 2) == ENTITIES[k] == "&" + ENTITIES[k][1..]
    ensures Shown([Entity(k)], 6) == [SHOWN[k]]
  {
    hide Shown;
    EntityParts(k);
    FirstShown(Entity(k), [], 2);
    FirstShown(Entity(k), [], 6);
    CharsShown("");
    assert Chars("") == [] && [Entity(k)] + [] == [Entity(k)];
  }

  // ----- documents -----

  datatype Tag = Tag(closing: bool, name: string, attributes: string)

  /** A tag and the text up to the next one. */
  datatype Step = Step(tag: Tag, text: string)

  function TagText(t: Tag): string {
    (if t.closing then "/" else "") + t.name + t.attributes
  }

  predicate IsTag(t: Tag) {
    && t.name != "" && '/' !in t.name && (forall c | c in t.name :: !IsWhitespace(c))
    && (t.attributes == "" || IsWhitespace(t.attributes[0]))
    && '>' !in t.name && '>' !in t.attributes
  }

  predicate IsDocument(first: string, steps: seq<Step>) {
    '<' !in first && forall k | 0 <= k < |steps| :: IsTag(steps[k].tag) && '<' !in steps[k].text
  }

  /** What may follow the last text: nothing, or a tag that is never finished. */
  predicate IsEnd(end: string) {
    end == "" || (end[0] == '<' && '>' !in end)
  }

  function Document(first: string, steps: seq<Step>, end: string): string
    decreases |steps|
  {
    if steps == [] then first + end
    else first + "<" + (TagText(steps[0].tag) + ">" + Document(steps[0].text, steps[1..], end))
  }

  /** Script and style elements hide what they hold. */
  predicate Hides(t: Tag) {
    AnyCase(t.name, "script") || AnyCase(t.name, "style")
  }

  /** After these tags text shows: the last script or style tag, if any, is a closing one. */
  predicate Shows(steps: seq<Step>) {
    if steps == [] then true
    else
      var t := steps[|steps| - 1].tag;
      if Hides(t) then t.closing else Shows(steps[..|steps| - 1])
  }

  /** The texts that show, trimmed and unescaped. */
  function Visible(first: string, steps: seq<Step>): seq<string> {
    if steps == [] then VisibleText(first, true)
    else Visible(first, steps[..|steps| - 1]) + VisibleText(steps[|steps| - 1].text, Shows(steps))
  }

  function VisibleText(text: string, shows: bool): seq<string> {
    if shows && Trim(text) != "" then [HtmlUnescape(Trim(text))] else []
  }

  function Texts(steps: seq<Step>): (texts: seq<string>)
    ensures |texts| == |steps| && forall k | 0 <= k < |steps| :: texts[k] == steps[k].text
  {
    seq(|steps|, k requires 0 <= k < |steps| => steps[k].text)
  }

  function Tags(steps: seq<Step>): (tags: seq<string>)
    ensures |tags| == |steps| && forall k | 0 <= k < |steps| :: tags[k] == TagText(steps[k].tag)
  {
    seq(|steps|, k requires 0 <= k < |steps| => TagText(steps[k].tag))
  }

  lemma TagHides(t: Tag)
    requires IsTag(t)
    ensures IsSwitch(TagText(t)) <==> Hides(t)
    ensures IsClosing(TagText(t)) <==> t.closing
    ensures '>' !in TagText(t)
  {
    hide IsWhitespace, IsClosing, TagName, AnyCase;
    TagOf(t.name, t.attributes);
    LowerExactly(t.name, "script");
    LowerExactly(t.name, "style");
    assert "" + t.name + t.attributes == t.name + t.attributes;
  }

  lemma {:induction false} DocumentParsed(first: string, steps: seq<Step>, end: string)
    requires IsDocument(first, steps) && IsEnd(end)
    ensures Parse(Document(first, steps, end)) == Markup([first] + Texts(steps), Tags(steps))
    decreases |steps|
  {
    hide Parse, ParseTag, TagText, IsTag, Texts, Tags, IsEnd;
    FirstStep(steps);
    if steps == [] {
      LastParsed(first, end);
      assert [first] + Texts(steps) == [first] && Tags(steps) == [];
    } else {
      var t, rest := TagText(steps[0].tag), Document(steps[0].text, steps[1..], end);
      TagHides(steps[0].tag);
      DocumentParsed(steps[0].text, steps[1..], end);
      ParseText(first, t + ">" + rest);
      ParseTagText(t, rest);
    }
  }

  lemma FirstStep(steps: seq<Step>)
    ensures Texts(steps) == if steps == [] then [] else [steps[0].text] + Texts(steps[1..])
    ensures Tags(steps) == if steps == [] then [] else [TagText(steps[0].tag)] + Tags(steps[1..])
  {
    hide TagText;
  }

  lemma LastParsed(text: string, end: string)
    requires '<' !in text && IsEnd(end)
    ensures Parse(text + end) == Markup([text], [])
  {
    hide Parse, ParseTag;
    if end == "" {
      TextOnly(text);
      assert text + end == text;
    } else {
      ParseText(text, end[1..]);
      assert text + end == text + "<" + end[1..];
      TagOnly(end[1..]);
      assert [text] + [] == [text];
    }
  }

  lemma TextOnly(text: string)
    requires '<' !in text
    ensures Parse(text) == Markup([text], [])
  {
    hide Find;
    FindNone(text, '<');
  }

  lemma TagOnly(text: string)
    requires '>' !in text
    ensures ParseTag(text) == Markup([], [])
  {
    hide Find;
    FindNone(text, '>');
  }

  lemma {:induction false} CollectedShows(steps: seq<Step>)
    requires forall k | 0 <= k < |steps| :: IsTag(steps[k].tag)
    ensures Collected(Tags(steps), |steps|) == Shows(steps)
  {
    hide IsTag, TagText, IsSwitch, IsClosing, Hides;
    if steps != [] {
      var n := |steps| - 1;
      CollectedShows(steps[..n]);
      assert Tags(steps) == Tags(steps[..n]) + [TagText(steps[n].tag)];
      TagHides(steps[n].tag);
      CollectedStep(Tags(steps[..n]), TagText(steps[n].tag));
    }
  }

  lemma {:induction false} PiecesVisible(first: string, steps: seq<Step>)
    requires forall k | 0 <= k < |steps| :: IsTag(steps[k].tag)
    ensures Pieces([first] + Texts(steps), Tags(steps)) == Visible(first, steps)
  {
    hide IsTag, TagText, Collected, Shows, Trim, HtmlUnescape, Pieces;
    CollectedShows(steps);
    if steps == [] {
      PiecesSnocLast([], first, []);
      NoPieces();
      assert [first] + Texts(steps) == [] + [first] && Tags(steps) == [];
      NothingHides();
    } else {
      var n := |steps| - 1;
      var tag, runs, tags := TagText(steps[n].tag), [first] + Texts(steps[..n]), Tags(steps[..n]);
      PiecesVisible(first, steps[..n]);
      PiecesPrefix(runs, tags, tag);
      assert Tags(steps) == tags + [tag];
      assert [first] + Texts(steps) == runs + [steps[n].text];
      PiecesSnocLast(runs, steps[n].text, tags + [tag]);
    }
  }

  lemma NothingHides()
    ensures Shows([])
  {
  }

  lemma NoPieces()
    ensures Pieces([], []) == []
  {
  }

  lemma PiecesSnocLast(runs: seq<string>, run: string, tags: seq<string>)
    requires |runs| == |tags|
    ensures Pieces(runs + [run], tags) == Pieces(runs, tags) + VisibleText(run, Collected(tags, |runs|))
  {
    hide Collected, Trim, HtmlUnescape;
    PiecesSnoc(runs, run, tags);
  }

  /** The text of a document is what shows, with a blank between any two pieces of it; an unfinished tag at its end
      swallows the rest. */
  lemma DocumentText(first: string, steps: seq<Step>, end: string)
    requires IsDocument(first, steps) && IsEnd(end)
    ensures HtmlText(Document(first, steps, end)) == Join(Visible(first, steps), " ")
  {
    hide Parse, Pieces, Document, Visible, Join, IsTag;
    DocumentParsed(first, steps, end);
    PiecesVisible(first, steps);
  }
}
