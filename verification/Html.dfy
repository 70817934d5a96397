/** The one-pass HTML text extractor of src/digest.rs and what it extracts. */
module Html {
  import opened Text

  // ----- tags -----

  function TagName(tag: string): string {
    var words := SplitWhitespace(TrimStartOf(tag, '/'));
    Lower(TrimOf(if words == [] then "" else words[0], '/'))
  }

  /** Script and style tags switch the collection of text off and on. */
  predicate IsSwitch(tag: string) {
    TagName(tag) == "script" || TagName(tag) == "style"
  }

  predicate IsClosing(tag: string) {
    var t := TrimStart(tag);
    t != "" && t[0] == '/'
  }

  function HtmlUnescape(value: string): string {
    Replace(Replace(Replace(Replace(Replace(Replace(value,
      "&nbsp;", " "), "&amp;", "&"), "&lt;", "<"), "&gt;", ">"), "&quot;", "\""), "&#39;", "'")
  }

  lemma FirstWord(name: string, attributes: string)
    requires name != "" && forall c | c in name :: !IsWhitespace(c)
    requires attributes == "" || IsWhitespace(attributes[0])
    ensures
      var words := SplitWhitespace(name + attributes);
      words != [] && words[0] == name
  {
    hide IsWhitespace;
    TokenLengthPrefix(name, attributes);
    WholeToken(name);
    assert (name + attributes)[0] == name[0] && (name + attributes)[..|name|] == name;
  }

  /** A tag's name is its first word, whatever follows it, and a slash before the name closes. */
  lemma TagOf(name: string, attributes: string)
    requires name != "" && '/' !in name && forall c | c in name :: !IsWhitespace(c)
    requires attributes == "" || IsWhitespace(attributes[0])
    ensures TagName(name + attributes) == TagName("/" + name + attributes) == Lower(name)
    ensures IsClosing("/" + name + attributes) && !IsClosing(name + attributes)
  {
    hide IsWhitespace, Lower, SplitWhitespace, TrimOf, TrimStart, TrimStartOf;
    var tag := name + attributes;
    assert "/" + name + attributes == "/" + tag;
    FirstWord(name, attributes);
    NoSlash(name);
    NoLeading(tag, name[0]);
    LeadingSlash(tag);
  }

  lemma NoLeading(tag: string, c: char)
    requires tag != "" && tag[0] == c && c != '/' && !IsWhitespace(c)
    ensures TrimStartOf(tag, '/') == tag && TrimStart(tag) == tag
  {
    hide IsWhitespace;
  }

  lemma LeadingSlash(tag: string)
    requires tag != "" && tag[0] != '/'
    ensures TrimStartOf("/" + tag, '/') == tag && TrimStart("/" + tag) == "/" + tag
  {
    hide IsWhitespace;
    SlashIsNoWhitespace();
    assert ("/" + tag)[1..] == tag;
  }

  lemma SlashIsNoWhitespace()
    ensures !IsWhitespace('/')
  {
  }

  lemma WholeToken(s: string)
    requires forall c | c in s :: !IsWhitespace(c)
    ensures TokenLength(s) == |s|
  {
    hide IsWhitespace;
  }

  lemma {:induction false} NoSlash(s: string)
    requires '/' !in s
    ensures TrimOf(s, '/') == s
  {
  }

  // ----- what the text of a document is -----

  /** The text runs and the completed tags of a document. The run after tag `k` is run `k + 1`;
      a tag that is never completed swallows the rest. */
  datatype Markup = Markup(runs: seq<string>, tags: seq<string>)

  function Parse(s: string): (m: Markup)
    ensures |m.runs| == |m.tags| + 1
    decreases |s|, 1
  {
    var i := Find(s, '<');
    if i == |s| then Markup([s], [])
    else
      var rest := ParseTag(s[i + 1..]);
      Markup([s[..i]] + rest.runs, rest.tags)
  }

  function ParseTag(s: string): (m: Markup)
    ensures |m.runs| == |m.tags|
    decreases |s|, 0
  {
    var j := Find(s, '>');
    if j == |s| then Markup([], [])
    else
      var rest := Parse(s[j + 1..]);
      Markup(rest.runs, [s[..j]] + rest.tags)
  }

  /** Tag `j` is the last switch before run `k`. */
  predicate LastSwitch(tags: seq<string>, j: int, k: nat)
    requires k <= |tags|
  {
    0 <= j < k && IsSwitch(tags[j]) && forall i | j < i < k :: !IsSwitch(tags[i])
  }

  /** Run `k` is collected: the last switch before it, if any, is a closing one. */
  predicate Collected(tags: seq<string>, k: nat)
    requires k <= |tags|
  {
    forall j | 0 <= j < k && LastSwitch(tags, j, k) :: IsClosing(tags[j])
  }

  function Pieces(runs: seq<string>, tags: seq<string>): seq<string>
    requires |runs| <= |tags| + 1
  {
    if runs == [] then []
    else
      var k := |runs| - 1;
      Pieces(runs[..k], tags)
      + if Collected(tags, k) && Trim(runs[k]) != "" then [HtmlUnescape(Trim(runs[k]))] else []
  }

  function HtmlText(s: string): string {
    var m := Parse(s);
    Join(Pieces(m.runs, m.tags), " ")
  }

  // ----- the machine -----

  method PushHtmlText(data: seq<string>, text: string, collect: bool) returns (r: seq<string>)
    ensures r == data + if collect && Trim(text) != "" then [HtmlUnescape(Trim(text))] else []
  {
    var trimmed := Trim(text);
    r := data;
    if collect && trimmed != "" {
      r := r + [HtmlUnescape(trimmed)];
    }
  }

  lemma {:induction false} PiecesPrefix(runs: seq<string>, tags: seq<string>, tag: string)
    requires |runs| <= |tags| + 1
    ensures Pieces(runs, tags + [tag]) == Pieces(runs, tags)
  {
    hide IsSwitch, IsClosing, Trim, HtmlUnescape;
    if runs != [] {
      PiecesPrefix(runs[..|runs| - 1], tags, tag);
      CollectedPrefix(tags, tag, |runs| - 1);
    }
  }

  lemma CollectedPrefix(tags: seq<string>, tag: string, k: nat)
    requires k <= |tags|
    ensures Collected(tags + [tag], k) == Collected(tags, k)
  {
    hide IsSwitch, IsClosing;
    var more := tags + [tag];
    assert forall j | 0 <= j < k :: more[j] == tags[j];
    assert forall j | 0 <= j < k :: LastSwitch(more, j, k) == LastSwitch(tags, j, k);
  }

  lemma CollectedStep(tags: seq<string>, tag: string)
    ensures
      Collected(tags + [tag], |tags| + 1)
      == if IsSwitch(tag) then IsClosing(tag) else Collected(tags, |tags|)
  {
    hide IsSwitch, IsClosing;
    var more, n, k := tags + [tag], |tags|, |tags| + 1;
    assert more[n] == tag;
    assert forall j | 0 <= j < n :: more[j] == tags[j];
    if IsSwitch(tag) {
      assert LastSwitch(more, n, k);
      assert forall j | 0 <= j < n :: !LastSwitch(more, j, k);
    } else {
      assert forall j | 0 <= j < n :: LastSwitch(more, j, k) == LastSwitch(tags, j, n);
    }
  }

  /** `m` is the markup read so far followed by the markup still to come. */
  ghost predicate After(m: Markup, runs: seq<string>, tags: seq<string>, rest: Markup) {
    m == Markup(runs + rest.runs, tags + rest.tags)
  }

  lemma AtTag(m: Markup, runs: seq<string>, tags: seq<string>, text: string, rest: string)
    requires '<' !in text && After(m, runs, tags, Parse(text + "<" + rest))
    ensures After(m, runs + [text], tags, ParseTag(rest))
  {
    hide Parse, ParseTag;
    ParseText(text, rest);
    assert runs + ([text] + ParseTag(rest).runs) == runs + [text] + ParseTag(rest).runs;
  }

  lemma ParseText(text: string, rest: string)
    requires '<' !in text
    ensures Parse(text + "<" + rest) == Markup([text] + ParseTag(rest).runs, ParseTag(rest).tags)
  {
    hide Find, ParseTag;
    FindAt(text, '<', rest);
    var s := text + "<" + rest;
    assert s[..|text|] == text && s[|text| + 1..] == rest;
  }

  lemma AtText(m: Markup, runs: seq<string>, tags: seq<string>, tag: string, rest: string)
    requires '>' !in tag && After(m, runs, tags, ParseTag(tag + ">" + rest))
    ensures After(m, runs, tags + [tag], Parse(rest))
  {
    hide Parse, ParseTag;
    ParseTagText(tag, rest);
    assert tags + ([tag] + Parse(rest).tags) == tags + [tag] + Parse(rest).tags;
  }

  lemma ParseTagText(tag: string, rest: string)
    requires '>' !in tag
    ensures ParseTag(tag + ">" + rest) == Markup(Parse(rest).runs, [tag] + Parse(rest).tags)
  {
    hide Find, Parse;
    FindAt(tag, '>', rest);
    var s := tag + ">" + rest;
    assert s[..|tag|] == tag && s[|tag| + 1..] == rest;
  }

  lemma AtEnd(m: Markup, runs: seq<string>, tags: seq<string>, text: string)
    ensures '<' !in text && After(m, runs, tags, Parse(text)) ==> m == Markup(runs + [text], tags)
    ensures '>' !in text && After(m, runs, tags, ParseTag(text)) ==> m == Markup(runs, tags)
  {
    if '<' !in text {
      FindNone(text, '<');
      assert tags + [] == tags;
    }
    if '>' !in text {
      FindNone(text, '>');
      assert tags + [] == tags && runs + [] == runs;
    }
  }

  lemma {:induction false} PiecesSnoc(runs: seq<string>, run: string, tags: seq<string>)
    requires |runs| <= |tags|
    ensures
      Pieces(runs + [run], tags)
      == Pieces(runs, tags)
         + if Collected(tags, |runs|) && Trim(run) != "" then [HtmlUnescape(Trim(run))] else []
  {
    hide Collected, Trim, HtmlUnescape;
    assert (runs + [run])[..|runs|] == runs;
  }

  method NormalizeHtmlPart(input: string) returns (r: string)
    ensures r == HtmlText(input)
  {
    hide TagName, IsClosing, Trim, HtmlUnescape, Find, Parse, ParseTag, Collected, Pieces, After, Join;
    var data: seq<string>, text, tag, inTag, collect := [], "", "", false, true;
    ghost var runs: seq<string>, tags: seq<string> := [], [];
    ghost var m := Parse(input);
    assert "" + input[0..] == input;
    AtStart(m);
    for n := 0 to |input|
      invariant |runs| == |tags| + if inTag then 1 else 0
      invariant inTag ==> '>' !in tag && After(m, runs, tags, ParseTag(tag + input[n..])) && text == ""
      invariant !inTag ==> '<' !in text && After(m, runs, tags, Parse(text + input[n..]))
      invariant data == Pieces(runs, tags) && collect == Collected(tags, |tags|)
    {
      var ch := input[n];
      assert input[n..] == [ch] + input[n + 1..];
      if !inTag && ch == '<' {
        assert text + input[n..] == text + "<" + input[n + 1..];
        AtTag(m, runs, tags, text, input[n + 1..]);
        PiecesSnoc(runs, text, tags);
        data := PushHtmlText(data, text, collect);
        runs := runs + [text];
        text := "";
        tag := "";
        inTag := true;
        assert tag + input[n + 1..] == input[n + 1..];
      } else if inTag && ch == '>' {
        assert tag + input[n..] == tag + ">" + input[n + 1..];
        AtText(m, runs, tags, tag, input[n + 1..]);
        CollectedStep(tags, tag);
        PiecesPrefix(runs, tags, tag);
        var name := TagName(tag);
        if name == "script" || name == "style" {
          collect := IsClosing(tag);
        }
        tags := tags + [tag];
        inTag := false;
        assert text + input[n + 1..] == input[n + 1..];
      } else if inTag {
        assert tag + input[n..] == tag + [ch] + input[n + 1..];
        tag := tag + [ch];
      } else {
        assert text + input[n..] == text + [ch] + input[n + 1..];
        text := text + [ch];
      }
    }
    assert (if inTag then tag else text) + input[|input|..] == if inTag then tag else text;
    AtEnd(m, runs, tags, if inTag then tag else text);
    if !inTag {
      PiecesSnoc(runs, text, tags);
    } else {
      TrimNothing();
    }
    assert data + [] == data;
    data := PushHtmlText(data, text, collect);
    r := Join(data, " ");
  }

  lemma AtStart(m: Markup)
    ensures After(m, [], [], m) && Collected([], 0) && Pieces([], []) == []
  {
    assert [] + m.runs == m.runs && [] + m.tags == m.tags;
  }

  lemma TrimNothing()
    ensures Trim("") == ""
  {
  }

  // ----- what follows for the text -----

  /** No text run holds a '<': what a piece shows as one was written `&lt;`. */
  lemma {:induction false} RunsHoldNoTags(s: string)
    ensures forall r | r in Parse(s).runs :: '<' !in r
    decreases |s|
  {
    var i := Find(s, '<');
    if i < |s| {
      var t := s[i + 1..];
      var j := Find(t, '>');
      if j < |t| {
        RunsHoldNoTags(t[j + 1..]);
      }
    }
  }

  function Total(runs: seq<string>): nat {
    if runs == [] then 0 else Total(runs[..|runs| - 1]) + |runs[|runs| - 1]|
  }

  lemma {:induction false} TotalCons(r: string, runs: seq<string>)
    ensures Total([r] + runs) == |r| + Total(runs)
  {
    if runs == [] {
      assert [r] + runs == [r] && [r][..0] == [];
    } else {
      var k := |runs| - 1;
      assert ([r] + runs)[..k + 1] == [r] + runs[..k];
      TotalCons(r, runs[..k]);
    }
  }

  lemma TotalNothing()
    ensures Total([]) == 0
  {
  }

  lemma {:induction false} MarkupSize(s: string)
    ensures Total(Parse(s).runs) + 2 * |Parse(s).tags| <= |s|
    decreases |s|
  {
    hide Find, Total;
    var i := Find(s, '<');
    TotalNothing();
    if i == |s| {
      TotalCons(s, []);
      assert [s] + [] == [s];
    } else {
      var t := s[i + 1..];
      var j := Find(t, '>');
      TotalCons(s[..i], ParseTag(t).runs);
      if j < |t| {
        MarkupSize(t[j + 1..]);
      }
    }
  }

  lemma UnescapeShrinks(s: string)
    ensures |HtmlUnescape(s)| <= |s|
  {
    hide Replace;
    var a := Replace(s, "&nbsp;", " ");
    var b := Replace(a, "&amp;", "&");
    var c := Replace(b, "&lt;", "<");
    var d := Replace(c, "&gt;", ">");
    var e := Replace(d, "&quot;", "\"");
    ReplaceShrinks(s, "&nbsp;", " ");
    ReplaceShrinks(a, "&amp;", "&");
    ReplaceShrinks(b, "&lt;", "<");
    ReplaceShrinks(c, "&gt;", ">");
    ReplaceShrinks(d, "&quot;", "\"");
    ReplaceShrinks(e, "&#39;", "'");
  }

  lemma {:induction false} PiecesSize(runs: seq<string>, tags: seq<string>)
    requires |runs| <= |tags| + 1
    ensures |Join(Pieces(runs, tags), " ")| <= Total(runs) + if runs == [] then 0 else |runs| - 1
  {
    hide Collected, Trim, HtmlUnescape;
    if runs != [] {
      var k := |runs| - 1;
      PiecesSize(runs[..k], tags);
      var x := Trim(runs[k]);
      UnescapeShrinks(x);
      if Collected(tags, k) && x != "" {
        JoinSnoc(Pieces(runs[..k], tags), HtmlUnescape(x), " ");
      } else {
        assert Pieces(runs[..k], tags) + [] == Pieces(runs[..k], tags);
      }
    }
  }

  /** The extracted text is never longer than the document. */
  lemma HtmlTextShrinks(s: string)
    ensures |HtmlText(s)| <= |s|
  {
    MarkupSize(s);
    PiecesSize(Parse(s).runs, Parse(s).tags);
  }
}
