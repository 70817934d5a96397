/** How type headers and folded headers of a part read back (src/digest.rs). */
module MimeLaws {
  import opened Wrappers
  import opened Text
  import opened Headers
  import opened Mime
  import opened Predigest

  // ----- folded headers -----

  /** A header as it may stand in a message: its value may continue on lines that start with a blank. */
  datatype Folded = Folded(name: string, first: string, more: seq<string>)

  predicate IsContinuation(line: string) {
    line != "" && (line[0] == ' ' || line[0] == '\t')
  }

  predicate WellFolded(f: Folded) {
    && ':' !in f.name && !IsContinuation(f.name + ":")
    && forall k | 0 <= k < |f.more| :: IsContinuation(f.more[k])
  }

  function FoldedLines(fs: seq<Folded>): seq<string> {
    if fs == [] then []
    else FoldedLines(fs[..|fs| - 1]) + [fs[|fs| - 1].name + ":" + fs[|fs| - 1].first] + fs[|fs| - 1].more
  }

  /** The value of a folded header: its trimmed lines with a blank between each two. */
  function UnfoldedValue(first: string, more: seq<string>): string {
    if more == [] then Trim(first)
    else UnfoldedValue(first, more[..|more| - 1]) + " " + Trim(more[|more| - 1])
  }

  function Unfolded(fs: seq<Folded>): seq<Header> {
    if fs == [] then []
    else
      var f := fs[|fs| - 1];
      Unfolded(fs[..|fs| - 1]) + [(Trim(f.name), UnfoldedValue(f.first, f.more))]
  }

  lemma {:induction false} HeaderLinesAppend(headers: seq<Header>, a: seq<string>, b: seq<string>)
    ensures HeaderLines(headers, a + b) == HeaderLines(HeaderLines(headers, a), b)
    decreases |a|
  {
    hide HeaderLine;
    if a == [] {
      assert a + b == b;
    } else {
      assert (a + b)[0] == a[0] && (a + b)[1..] == a[1..] + b;
      HeaderLinesAppend(HeaderLine(headers, a[0]), a[1..], b);
    }
  }

  lemma HeaderLinesOne(headers: seq<Header>, line: string)
    ensures HeaderLines(headers, [line]) == HeaderLine(headers, line)
  {
    hide HeaderLine;
    assert [line][1..] == [];
  }

  lemma FirstLine(headers: seq<Header>, name: string, first: string)
    requires ':' !in name && !IsContinuation(name + ":")
    ensures HeaderLine(headers, name + ":" + first) == headers + [(Trim(name), Trim(first))]
  {
    hide Find, Trim;
    FindAt(name, ':', first);
    var line := name + ":" + first;
    assert line[..|name|] == name && line[|name| + 1..] == first;
    assert (name + ":")[0] == line[0];
  }

  lemma {:induction false} MoreLines(headers: seq<Header>, name: string, first: string, more: seq<string>)
    requires forall k | 0 <= k < |more| :: IsContinuation(more[k])
    ensures HeaderLines(headers + [(name, Trim(first))], more) == headers + [(name, UnfoldedValue(first, more))]
  {
    hide Trim;
    if more != [] {
      var k := |more| - 1;
      MoreLines(headers, name, first, more[..k]);
      HeaderLinesAppend(headers + [(name, Trim(first))], more[..k], [more[k]]);
      HeaderLinesOne(headers + [(name, UnfoldedValue(first, more[..k]))], more[k]);
      assert more == more[..k] + [more[k]];
    }
  }

  /** Reading unfolds: each header has its trimmed name, and its value on one line. */
  lemma {:induction false} HeadersUnfold(fs: seq<Folded>)
    requires forall k | 0 <= k < |fs| :: WellFolded(fs[k])
    ensures HeaderLines([], FoldedLines(fs)) == Unfolded(fs)
  {
    hide Trim, UnfoldedValue, HeaderLine;
    if fs != [] {
      var n := |fs| - 1;
      var f := fs[n];
      var before, line := FoldedLines(fs[..n]), f.name + ":" + f.first;
      HeadersUnfold(fs[..n]);
      assert WellFolded(f);
      HeaderLinesAppend([], before + [line], f.more);
      HeaderLinesAppend([], before, [line]);
      HeaderLinesOne(Unfolded(fs[..n]), line);
      FirstLine(Unfolded(fs[..n]), f.name, f.first);
      MoreLines(Unfolded(fs[..n]), Trim(f.name), f.first, f.more);
    }
  }

  /** A line without a colon is no header, and a continuation before any header is passed over. */
  lemma OtherHeaderLines(headers: seq<Header>, line: string)
    ensures ':' !in line && !IsContinuation(line) ==> HeaderLine(headers, line) == headers
    ensures IsContinuation(line) ==> HeaderLine([], line) == []
  {
    hide Find, Trim;
    if ':' !in line {
      FindNone(line, ':');
    }
  }

  // ----- the type header -----

  lemma SpaceIsWhitespace()
    ensures IsWhitespace(' ')
  {
  }

  lemma LeadingBlank(s: string)
    requires Trim(s) == s && s != "" && !IsWhitespace(s[0])
    ensures Trim(" " + s) == s
  {
    hide IsWhitespace, TrimEnd;
    SpaceIsWhitespace();
    assert (" " + s)[1..] == s;
    assert TrimStart(s) == s;
  }

  lemma SplitTwo(a: string, c: char, b: string)
    requires c !in a && c !in b
    ensures Split(a + [c] + b, c) == [a, b]
  {
    hide Find;
    SplitStep(a, c, b);
    FindNone(b, c);
  }

  lemma SplitOnceAt(a: string, c: char, b: string)
    requires c !in a
    ensures SplitOnce(a + [c] + b, c) == Some((a, b))
  {
    hide Find;
    FindAt(a, c, b);
    var s := a + [c] + b;
    assert s[..|a|] == a && s[|a| + 1..] == b;
  }

  /** A word of a media type: lower case, and neither white space nor a separator. */
  predicate MediaWord(s: string) {
    s != "" && forall k | 0 <= k < |s| :: !IsWhitespace(s[k]) && s[k] != ';' && s[k] != '/' && !('A' <= s[k] <= 'Z')
  }

  lemma MediaWordLaws(s: string)
    requires MediaWord(s)
    ensures Trim(s) == s && Lower(s) == s && ';' !in s && '/' !in s
  {
    hide IsWhitespace;
    Trimmed(s);
    LowerIdentity(s);
  }

  lemma MediaRead(main: string, sub: string)
    requires MediaWord(main) && MediaWord(sub)
    ensures var v := main + "/" + sub; ';' !in v && SplitOnce(Lower(Trim(v)), '/') == Some((main, sub))
  {
    hide Trim, SplitOnce, Lower;
    MediaWordLaws(main);
    MediaWordLaws(sub);
    var v := main + "/" + sub;
    assert v[0] == main[0] && v[|v| - 1] == sub[|sub| - 1];
    Trimmed(v);
    LowerIdentity(v);
    SplitOnceAt(main, '/', sub);
  }

  function Unquoted(value: string): string {
    Replace(TrimOf(value, '"'), "\0", "")
  }

  lemma ParameterRead(key: string, value: string, name: string)
    requires key == "boundary" || key == "charset"
    requires Trim(value) == value
    ensures Parameter([" " + key + "=" + value], name) == if key == name then Some(Unquoted(value)) else None
  {
    hide SplitOnce, Lower, Trim, TrimOf, Replace;
    var p := " " + key + "=" + value;
    SplitOnceAt(" " + key, '=', value);
    Trimmed(key);
    LeadingBlank(key);
    LowerIdentity(key);
    assert [p][1..] == [];
    assert Parameter([], name) == None;
  }

  /** A type header with one parameter reads back: the media type, and the parameter without its quotes. */
  lemma ContentTypeRead(main: string, sub: string, key: string, value: string)
    requires MediaWord(main) && MediaWord(sub) && (key == "boundary" || key == "charset")
    requires Trim(value) == value && ';' !in value
    ensures
      ParseContentType(main + "/" + sub + "; " + key + "=" + value)
      == ContentType(main, sub, if key == "boundary" then Some(Unquoted(value)) else None,
                     if key == "charset" then Some(Unquoted(value)) else None)
  {
    hide SplitOnce, Lower, Trim, Split, Parameter, Unquoted, MediaWord;
    var media, p := main + "/" + sub, " " + key + "=" + value;
    MediaWordLaws(main);
    MediaWordLaws(sub);
    MediaRead(main, sub);
    assert ';' !in p;
    SplitTwo(media, ';', p);
    assert main + "/" + sub + "; " + key + "=" + value == media + [';'] + p;
    ParameterRead(key, value, "boundary");
    ParameterRead(key, value, "charset");
    assert [media, p][1..] == [p];
  }

  // ----- several parameters -----

  /** What may stand between semicolons: a name and a value, or anything without '='. */
  datatype Field = Named(name: string, value: string) | Word(text: string)

  predicate IsField(p: Field) {
    match p
    case Named(name, value) => '=' !in name && ';' !in name && ';' !in value
    case Word(text) => '=' !in text && ';' !in text
  }

  function FieldText(p: Field): string {
    match p
    case Named(name, value) => name + "=" + value
    case Word(text) => text
  }

  function FieldsText(fields: seq<Field>): string {
    if fields == [] then "" else ";" + FieldText(fields[0]) + FieldsText(fields[1..])
  }

  /** The field names this parameter, in any case and with any padding. */
  predicate IsNamed(p: Field, key: string) {
    p.Named? && AnyCase(Trim(p.name), key)
  }

  function FieldTexts(fields: seq<Field>): (texts: seq<string>)
    ensures |texts| == |fields| && forall k | 0 <= k < |fields| :: texts[k] == FieldText(fields[k])
  {
    seq(|fields|, k requires 0 <= k < |fields| => FieldText(fields[k]))
  }

  lemma {:induction false} FieldsSplit(media: string, fields: seq<Field>)
    requires ';' !in media && forall k | 0 <= k < |fields| :: IsField(fields[k])
    ensures Split(media + FieldsText(fields), ';') == [media] + FieldTexts(fields)
    decreases |fields|
  {
    hide Find, Split, FieldText;
    if fields == [] {
      SplitNone(media, ';');
      assert media + FieldsText(fields) == media && [media] + FieldTexts(fields) == [media];
    } else {
      var first, rest := FieldText(fields[0]), FieldsText(fields[1..]);
      assert IsField(fields[0]);
      FieldWithout(fields[0]);
      assert media + FieldsText(fields) == media + [';'] + (first + rest);
      SplitStep(media, ';', first + rest);
      FieldsSplit(first, fields[1..]);
      assert FieldTexts(fields) == [first] + FieldTexts(fields[1..]);
    }
  }

  lemma SplitNone(s: string, c: char)
    requires c !in s
    ensures Split(s, c) == [s]
  {
    hide Find;
    FindNone(s, c);
  }

  lemma FieldWithout(p: Field)
    requires IsField(p)
    ensures ';' !in FieldText(p)
  {
  }

  predicate NoneNamed(fields: seq<Field>, key: string) {
    forall k | 0 <= k < |fields| :: !IsNamed(fields[k], key)
  }

  predicate AreFields(fields: seq<Field>) {
    forall k | 0 <= k < |fields| :: IsField(fields[k])
  }

  /** A parameter that no field names is absent, */
  lemma {:induction false} NoField(fields: seq<Field>, key: string)
    requires NoCapital(key) && AreFields(fields) && NoneNamed(fields, key)
    ensures Parameter(FieldTexts(fields), key) == None
  {
    hide IsNamed, IsField, FieldText, Parameter, NoCapital;
    if fields == [] {
      NoParameters(key);
      assert FieldTexts(fields) == [];
    } else {
      NoField(fields[1..], key);
      FirstField(fields[0], FieldTexts(fields[1..]), key);
      assert FieldTexts(fields) == [FieldText(fields[0])] + FieldTexts(fields[1..]);
    }
  }

  /** and one that some name has the value of the last of them; other fields do not count. */
  lemma {:induction false} LastField(before: seq<Field>, p: Field, after: seq<Field>, key: string)
    requires NoCapital(key) && AreFields(before) && IsField(p) && AreFields(after)
    requires IsNamed(p, key) && NoneNamed(after, key)
    ensures Parameter(FieldTexts(before + [p] + after), key) == Some(Unquoted(Trim(p.value)))
  {
    hide IsNamed, IsField, FieldText, Parameter, NoCapital, Trim, Unquoted;
    var fields := before + [p] + after;
    assert FieldTexts(fields) == [FieldText(fields[0])] + FieldTexts(fields[1..]);
    if before == [] {
      assert fields[0] == p && fields[1..] == after;
      NoField(after, key);
      FirstField(p, FieldTexts(after), key);
    } else {
      assert fields[0] == before[0] && fields[1..] == before[1..] + [p] + after;
      LastField(before[1..], p, after, key);
      FirstField(fields[0], FieldTexts(fields[1..]), key);
    }
  }

  lemma NoParameters(key: string)
    ensures Parameter([], key) == None
  {
  }

  lemma FirstField(p: Field, rest: seq<string>, key: string)
    requires IsField(p) && NoCapital(key)
    ensures IsNamed(p, key) ==> p.Named?
    ensures Parameter([FieldText(p)] + rest, key)
         == var later := Parameter(rest, key);
            if later.None? && IsNamed(p, key) then Some(Unquoted(Trim(p.value))) else later
  {
    hide AnyCase, Trim, Lower, SplitOnce, TrimOf, Replace;
    assert ([FieldText(p)] + rest)[1..] == rest;
    match p {
      case Named(name, value) =>
        SplitOnceAt(name, '=', value);
        LowerExactly(Trim(name), key);
      case Word(text) => SplitOnceNone(text);
    }
  }

  lemma SplitOnceNone(text: string)
    requires '=' !in text
    ensures SplitOnce(text, '=') == None
  {
    hide Find;
    FindNone(text, '=');
  }

  /** A type header with any fields: its media type, and of each parameter the last value, without its quotes. */
  lemma FieldsRead(main: string, sub: string, fields: seq<Field>)
    requires MediaWord(main) && MediaWord(sub) && forall k | 0 <= k < |fields| :: IsField(fields[k])
    ensures
      ParseContentType(main + "/" + sub + FieldsText(fields))
      == ContentType(main, sub, Parameter(FieldTexts(fields), "boundary"), Parameter(FieldTexts(fields), "charset"))
  {
    hide SplitOnce, Lower, Trim, Split, Parameter, MediaWord, FieldsText, FieldTexts;
    MediaRead(main, sub);
    var media := main + "/" + sub;
    MediaTrimmed(main, sub);
    FieldsSplit(media, fields);
    var parts := [media] + FieldTexts(fields);
    assert parts[0] == media && parts[1..] == FieldTexts(fields);
  }

  lemma MediaTrimmed(main: string, sub: string)
    requires MediaWord(main) && MediaWord(sub)
    ensures Trim(main) == main && Trim(sub) == sub
  {
    hide Trim, Lower, MediaWord;
    MediaWordLaws(main);
    MediaWordLaws(sub);
  }

  /** A media type without a slash is read as plain text. */
  lemma NoMediaType(word: string, fields: seq<Field>)
    requires '/' !in word && ';' !in word && forall k | 0 <= k < |fields| :: IsField(fields[k])
    ensures
      var c := ParseContentType(word + FieldsText(fields));
      c.main == "text" && c.sub == "plain"
  {
    hide Split, Parameter, FieldsText, Trim, Lower, Find;
    FieldsSplit(word, fields);
    TrimHolds(word, '/');
    LowerHolds(Trim(word), '/');
    FindNone(Lower(Trim(word)), '/');
  }

  lemma TrimHolds(s: string, c: char)
    requires c !in s
    ensures c !in Trim(s)
  {
    var t := TrimStart(s);
    assert forall x | x in t :: x in s;
    assert forall x | x in TrimEnd(t) :: x in t;
  }

  lemma {:induction false} LowerHolds(s: string, c: char)
    requires c !in s && !('a' <= c <= 'z')
    ensures c !in Lower(s)
  {
    if s != "" {
      LowerHolds(s[1..], c);
    }
  }

  lemma {:induction false} NoTrimOf(s: string, c: char)
    requires c !in s
    ensures TrimOf(s, c) == s
  {
  }

  /** A value reads the same with or without quotes around it. */
  lemma QuotesAround(value: string)
    requires '"' !in value && '\0' !in value
    ensures Unquoted(value) == value && Unquoted("\"" + value + "\"") == value
  {
    hide Replace;
    NoTrimOf(value, '"');
    ReplaceAbsent(value, "\0", "");
    var q := "\"" + value + "\"";
    assert q[1..] == value + "\"";
    EndQuote(value);
  }

  lemma EndQuote(value: string)
    requires '"' !in value
    ensures TrimStartOf(value + "\"", '"') == (if value == "" then "" else value + "\"")
    ensures TrimEndOf(value + "\"", '"') == value
  {
    var s := value + "\"";
    assert s[..|s| - 1] == value;
    assert value == "" ==> s[1..] == "";
  }

  lemma TypeName()
    ensures Trim("Content-Type") == "Content-Type" && ':' !in "Content-Type" && '\n' !in "Content-Type: "
    ensures !IsContinuation("Content-Type" + ":")
  {
    hide Trim;
    Trimmed("Content-Type");
  }

  /** A head that is one type header has that header, */
  lemma TypeHeader(value: string)
    requires Trim(value) == value && value != "" && !IsWhitespace(value[0]) && '\n' !in value
    ensures HeaderLines([], Lines("Content-Type: " + value)) == [("Content-Type", value)]
  {
    hide Find, Trim, HeaderLine, IsWhitespace, IsContinuation;
    var head := "Content-Type: " + value;
    TypeName();
    FindNone(head, '\n');
    assert Lines(head) == [head];
    HeaderLinesOne([], head);
    assert head == "Content-Type" + ":" + (" " + value);
    FirstLine([], "Content-Type", " " + value);
    LeadingBlank(value);
  }

  /** and says nothing about the transfer encoding. */
  lemma TypeHeaderFound(value: string, body: seq<byte>)
    ensures
      var part := Part([("Content-Type", value)], body);
      ContentTypeOf(part) == ParseContentType(value) && TransferEncodingOf(part) == Trim("7bit")
  {
    hide Lower, Trim, ParseContentType;
    NotATransferEncoding();
    assert [("Content-Type", value)][1..] == [];
    assert FindHeader([], "Content-Transfer-Encoding") == None;
  }

  lemma NotATransferEncoding()
    ensures !EqIgnoreAsciiCase("Content-Type", "Content-Transfer-Encoding")
  {
    assert |"Content-Type"| == 12 && |"Content-Transfer-Encoding"| == 25;
  }

  // ----- heads of one line -----

  predicate PlainAscii(s: string) {
    forall k | 0 <= k < |s| :: s[k] as int < 0x80 && s[k] != '\n' && s[k] != '\r'
  }

  lemma Plain(a: string, b: string)
    requires PlainAscii(a) && PlainAscii(b)
    ensures PlainAscii(a + b)
  {
  }

  lemma PlainClean(head: string)
    requires PlainAscii(head)
    ensures CleanHead(head) && '\n' !in head
  {
  }
}
