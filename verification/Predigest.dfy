/** From payloads to the lines that are hashed (src/digest.rs). */
module Predigest {
  import opened Wrappers
  import opened Text
  import opened Utf8
  import opened Headers
  import opened Mime
  import Transfer
  import Html
  import opened Payloads
  import opened Sha1
  import Fips180

  // ----- one line -----

  function RemoveNuls(s: string): string {
    Replace(s, "\0", "")
  }

  predicate LooksLikeEmail(token: string) {
    var i := Find(token, '@');
    0 < i && i + 1 < |token|
  }

  predicate IsAsciiAlphabetic(c: char) {
    'a' <= c <= 'z' || 'A' <= c <= 'Z'
  }

  predicate LooksLikeUrl(token: string) {
    var i := Find(token, ':');
    0 < i < |token| && forall c | c in token[..i] :: IsAsciiAlphabetic(c)
  }

  /** A token that stays in the normalised line. */
  predicate Kept(token: string) {
    |token| < 10 && !LooksLikeEmail(token) && !LooksLikeUrl(token)
  }

  function KeptText(tokens: seq<string>): string {
    if tokens == [] then ""
    else KeptText(tokens[..|tokens| - 1]) + if Kept(tokens[|tokens| - 1]) then tokens[|tokens| - 1] else ""
  }

  function NormalText(line: string): string {
    KeptText(SplitWhitespace(RemoveNuls(line)))
  }

  method Normalize(input: string) returns (out: string)
    ensures out == NormalText(input)
  {
    hide Kept;
    var tokens := SplitWhitespace(RemoveNuls(input));
    out := "";
    for i := 0 to |tokens|
      invariant out == KeptText(tokens[..i])
    {
      assert tokens[..i + 1][..i] == tokens[..i];
      out := PushNormalizedToken(out, tokens[i]);
    }
    assert tokens[..|tokens|] == tokens;
  }

  method PushNormalizedToken(out: string, token: string) returns (r: string)
    ensures r == out + if Kept(token) then token else ""
  {
    r := out;
    if token == "" {
      return;
    }
    if |token| >= 10 {
      return;
    }
    if LooksLikeEmail(token) || LooksLikeUrl(token) {
      return;
    }
    r := r + token;
  }

  // ----- all lines -----

  predicate ShouldHandleLine(line: string) {
    |Encode(line)| >= 8
  }

  function UsableOf(lines: seq<string>): seq<string> {
    if lines == [] then []
    else
      var text := NormalText(lines[|lines| - 1]);
      UsableOf(lines[..|lines| - 1]) + if ShouldHandleLine(text) then [text] else []
  }

  /** The normalised lines of all payloads that are long enough to count. */
  function Usable(payloads: seq<string>): seq<string> {
    if payloads == [] then []
    else Usable(payloads[..|payloads| - 1]) + UsableOf(Lines(payloads[|payloads| - 1]))
  }

  type Window = (nat, nat)

  const DIGEST_SPEC: seq<Window> := [(20, 3), (60, 3)]

  /** The positions that a window of the spec looks at, among `n` lines. */
  function WindowIndices(offset: nat, length: nat, n: nat): (r: seq<nat>)
    ensures |r| == length && forall i | 0 <= i < length :: r[i] == offset * n / 100 + i
  {
    seq(length, i requires 0 <= i => offset * n / 100 + i)
  }

  function Indices(spec: seq<Window>, n: nat): seq<nat> {
    if spec == [] then []
    else
      Indices(spec[..|spec| - 1], n) + WindowIndices(spec[|spec| - 1].0, spec[|spec| - 1].1, n)
  }

  /** The lines at the positions that exist. */
  function Pick(lines: seq<string>, indices: seq<nat>): seq<string> {
    if indices == [] then []
    else
      var i := indices[|indices| - 1];
      Pick(lines, indices[..|indices| - 1]) + if i < |lines| then [lines[i]] else []
  }

  function Select(lines: seq<string>, spec: seq<Window>): seq<string> {
    if |lines| <= 4 then lines else Pick(lines, Indices(spec, |lines|))
  }

  function PredigestOf(bytes: seq<byte>, spec: seq<Window>, registry: Registry): seq<string> {
    Select(Usable(PayloadsOf(ParsePart(bytes), registry)), spec)
  }

  lemma PickAppend(lines: seq<string>, a: seq<nat>, i: nat)
    ensures Pick(lines, a + [i]) == Pick(lines, a) + if i < |lines| then [lines[i]] else []
  {
    assert (a + [i])[..|a|] == a;
  }

  method CollectLines(payloads: seq<string>) returns (lines: seq<string>)
    ensures lines == Usable(payloads)
  {
    hide NormalText, Encode, Lines;
    lines := [];
    for p := 0 to |payloads|
      invariant lines == Usable(payloads[..p])
    {
      assert payloads[..p + 1][..p] == payloads[..p];
      var payloadLines := Lines(payloads[p]);
      ghost var before := lines;
      for l := 0 to |payloadLines|
        invariant lines == before + UsableOf(payloadLines[..l])
      {
        assert payloadLines[..l + 1][..l] == payloadLines[..l];
        var normalized := Normalize(payloadLines[l]);
        if ShouldHandleLine(normalized) {
          lines := lines + [normalized];
        }
      }
      assert payloadLines[..|payloadLines|] == payloadLines;
    }
    assert payloads[..|payloads|] == payloads;
  }

  method SelectLines(lines: seq<string>, spec: seq<Window>) returns (r: seq<string>)
    ensures r == Select(lines, spec)
  {
    if |lines| <= 4 {
      return lines;
    }
    hide Pick, WindowIndices;
    PickNothing(lines);
    r := [];
    for w := 0 to |spec|
      invariant r == Pick(lines, Indices(spec[..w], |lines|))
    {
      assert spec[..w + 1][..w] == spec[..w];
      r := SelectWindow(lines, spec[w].0, spec[w].1, r, Indices(spec[..w], |lines|));
    }
    assert spec[..|spec|] == spec;
  }

  method SelectWindow(lines: seq<string>, offset: nat, length: nat, selected: seq<string>, ghost done: seq<nat>)
    returns (r: seq<string>)
    requires selected == Pick(lines, done)
    ensures r == Pick(lines, done + WindowIndices(offset, length, |lines|))
  {
    hide Pick;
    r := selected;
    ghost var window := WindowIndices(offset, length, |lines|);
    assert done + window[..0] == done;
    for i := 0 to length
      invariant r == Pick(lines, done + window[..i])
    {
      var index := offset * |lines| / 100 + i;
      assert done + window[..i + 1] == done + window[..i] + [index];
      PickAppend(lines, done + window[..i], index);
      if index < |lines| {
        r := r + [lines[index]];
      }
    }
    assert window[..length] == window;
  }

  lemma PickNothing(lines: seq<string>)
    ensures Pick(lines, []) == []
  {
  }

  method PredigestWithSpec(bytes: seq<byte>, spec: seq<Window>, registry: Registry) returns (r: seq<string>)
    ensures r == PredigestOf(bytes, spec, registry)
  {
    hide ParsePart, PayloadsOf, Usable, Select;
    var root := Mime.Parse(bytes);
    var payloads := DigestPayloads(root, registry, []);
    assert payloads == PayloadsOf(root, registry);
    var lines := CollectLines(payloads);
    r := SelectLines(lines, spec);
  }

  /** The digest of a message: the hash of its selected lines, updated line by line. */
  method DigestWithSpec(bytes: seq<byte>, spec: seq<Window>, registry: Registry) returns (digest: string)
    ensures digest == DigestOf(bytes, spec, registry)
  {
    hide Encode, PredigestOf, HexText;
    var lines := PredigestWithSpec(bytes, spec, registry);
    var sha := new Sha1();
    for i := 0 to |lines|
      invariant sha.bytes == EncodedLines(lines[..i])
    {
      assert lines[..i + 1][..i] == lines[..i];
      sha.Update(Encode(lines[i]));
    }
    assert lines[..|lines|] == lines;
    digest := sha.HexDigest();
  }

  function DigestOf(bytes: seq<byte>, spec: seq<Window>, registry: Registry): string {
    HexText(Fips180.Hash(EncodedLines(PredigestOf(bytes, spec, registry))))
  }

  function EncodedLines(lines: seq<string>): seq<byte> {
    if lines == [] then [] else EncodedLines(lines[..|lines| - 1]) + Encode(lines[|lines| - 1])
  }

  /** What is hashed is the bytes of the lines' text, with nothing between or after the lines. */
  lemma {:induction false} EncodedLinesJoin(lines: seq<string>)
    ensures EncodedLines(lines) == Encode(Join(lines, ""))
  {
    hide Encode, Join;
    if lines == [] {
      NothingJoined();
    } else {
      var n := |lines| - 1;
      EncodedLinesJoin(lines[..n]);
      assert lines == lines[..n] + [lines[n]];
      JoinSnoc(lines[..n], lines[n], "");
      NothingJoined();
      EncodeConcat(Join(lines[..n], ""), lines[n]);
      assert Join(lines[..n], "") + "" + lines[n] == Join(lines[..n], "") + lines[n];
      assert "" + lines[n] == lines[n];
    }
  }

  lemma NothingJoined()
    ensures Join<char>([], "") == "" && Encode("") == []
  {
  }

  // ----- what the line's text ignores -----

  lemma {:induction false} RemoveNulsConcat(a: string, b: string)
    ensures RemoveNuls(a + b) == RemoveNuls(a) + RemoveNuls(b)
  {
    if a == "" {
      assert a + b == b;
    } else {
      assert (a + b)[1..] == a[1..] + b && (a + b)[..1] == a[..1];
      RemoveNulsConcat(a[1..], b);
    }
  }

  lemma RemoveNulsChar(c: char)
    ensures RemoveNuls([c]) == if c == '\0' then "" else [c]
  {
    assert [c][1..] == "" && [c][..1] == [c];
    assert Replace("", "\0", "") == "";
  }

  lemma {:induction false} KeptTextAppend(a: seq<string>, b: seq<string>)
    ensures KeptText(a + b) == KeptText(a) + KeptText(b)
  {
    hide Kept;
    if b == [] {
      assert a + b == a;
    } else {
      var k := |b| - 1;
      assert (a + b)[..|a| + k] == a + b[..k];
      KeptTextAppend(a, b[..k]);
    }
  }

  /** White space separates what a line keeps: each side is normalised on its own. */
  lemma NormalTextSplits(a: string, w: char, b: string)
    requires IsWhitespace(w)
    ensures NormalText(a + [w] + b) == NormalText(a) + NormalText(b)
  {
    hide SplitWhitespace, RemoveNuls, KeptText, IsWhitespace;
    RemoveNulsConcat(a + [w], b);
    RemoveNulsConcat(a, [w]);
    RemoveNulsChar(w);
    assert !IsWhitespace('\0') by {
      NulIsNotWhitespace();
    }
    SplitWhitespaceConcat(RemoveNuls(a), w, RemoveNuls(b));
    KeptTextAppend(SplitWhitespace(RemoveNuls(a)), SplitWhitespace(RemoveNuls(b)));
  }

  lemma NulIsNotWhitespace()
    ensures !IsWhitespace('\0')
  {
  }

  lemma NormalTextOfNothing()
    ensures NormalText("") == ""
  {
  }

  /** NULs anywhere in a line leave its text alone. */
  lemma NulsIgnored(a: string, b: string)
    ensures NormalText(a + "\0" + b) == NormalText(a + b)
  {
    hide SplitWhitespace, KeptText;
    RemoveNulsConcat(a + "\0", b);
    RemoveNulsConcat(a, "\0");
    RemoveNulsConcat(a, b);
    RemoveNulsChar('\0');
    assert RemoveNuls(a + "\0") == RemoveNuls(a);
  }

  /** So does more white space where there is some, */
  lemma ExtraWhitespaceIgnored(a: string, w: char, more: char, b: string)
    requires IsWhitespace(w) && IsWhitespace(more)
    ensures NormalText(a + [w] + [more] + b) == NormalText(a + [w] + b)
    ensures NormalText([w] + b) == NormalText(b + [w]) == NormalText(b)
  {
    hide NormalText, IsWhitespace;
    NormalTextOfNothing();
    NormalTextSplits(a + [w], more, b);
    NormalTextSplits(a, w, "");
    NormalTextSplits(a, w, b);
    NormalTextSplits("", w, b);
    NormalTextSplits(b, w, "");
    assert a + [w] + "" == a + [w] && "" + [w] + b == [w] + b && b + [w] + "" == b + [w];
  }

  /** A whole token without white space or NULs that is long, or looks like an address. */
  predicate IsNoise(token: string) {
    && token != "" && '\0' !in token && (forall c | c in token :: !IsWhitespace(c))
    && (|token| >= 10 || LooksLikeEmail(token) || LooksLikeUrl(token))
  }

  /** and so does a noise token between white space. */
  lemma NoiseTokenIgnored(a: string, w: char, token: string, more: char, b: string)
    requires IsWhitespace(w) && IsWhitespace(more) && IsNoise(token)
    ensures NormalText(a + [w] + token + [more] + b) == NormalText(a + [w] + b)
  {
    hide NormalText, IsWhitespace;
    NoiseAlone(token);
    NormalTextSplits(a + [w] + token, more, b);
    NormalTextSplits(a, w, token);
    NormalTextSplits(a, w, b);
  }

  lemma NoiseAlone(token: string)
    requires IsNoise(token)
    ensures NormalText(token) == ""
  {
    hide Kept, SplitWhitespace;
    ReplaceAbsent(token, "\0", "");
    OneToken(token);
    NoiseNotKept(token);
    assert [token][..0] == [] && KeptText([]) == "";
    assert KeptText([token]) == KeptText([]);
    assert RemoveNuls(token) == token;
  }

  lemma OneToken(token: string)
    requires token != "" && forall c | c in token :: !IsWhitespace(c)
    ensures SplitWhitespace(token) == [token]
  {
    hide IsWhitespace;
    var n := TokenLength(token);
    assert !IsWhitespace(token[0]);
    assert n == |token| && token[..n] == token && token[n..] == "";
    assert SplitWhitespace("") == [];
  }

  lemma NoiseNotKept(token: string)
    requires IsNoise(token)
    ensures !Kept(token)
  {
  }

  /** Every other token stays as it is. */
  lemma OrdinaryTokenKept(token: string)
    requires token != "" && '\0' !in token && forall c | c in token :: !IsWhitespace(c)
    requires !IsNoise(token)
    ensures NormalText(token) == token
  {
    hide SplitWhitespace, LooksLikeEmail, LooksLikeUrl;
    ReplaceAbsent(token, "\0", "");
    OneToken(token);
    assert [token][..0] == [] && KeptText([]) == "";
    assert KeptText([token]) == KeptText([]) + token;
    assert RemoveNuls(token) == token;
  }

  /** An email address is something, the first '@', and something. */
  lemma EmailExactly(token: string)
    ensures LooksLikeEmail(token)
       <==> exists user, host :: user != "" && host != "" && '@' !in user && token == user + "@" + host
  {
    var i := Find(token, '@');
    if LooksLikeEmail(token) {
      assert token == token[..i] + "@" + token[i + 1..] && '@' !in token[..i];
    }
    forall user, host | user != "" && host != "" && '@' !in user && token == user + "@" + host
      ensures LooksLikeEmail(token)
    {
      FindAt(user, '@', host);
    }
  }

  /** A URL is a scheme of letters before the first ':'. */
  lemma UrlExactly(token: string)
    ensures LooksLikeUrl(token)
       <==> exists scheme, rest :: scheme != "" && (forall c | c in scheme :: IsAsciiAlphabetic(c))
              && token == scheme + ":" + rest
  {
    var i := Find(token, ':');
    if LooksLikeUrl(token) {
      assert token == token[..i] + ":" + token[i + 1..];
    }
    forall scheme, rest | scheme != "" && (forall c | c in scheme :: IsAsciiAlphabetic(c)) && token == scheme + ":" + rest
      ensures LooksLikeUrl(token)
    {
      assert !IsAsciiAlphabetic(':');
      FindAt(scheme, ':', rest);
      assert token[..|scheme|] == scheme;
    }
  }

  // ----- what the payload's lines ignore -----

  lemma {:induction false} UsableOfAppend(a: seq<string>, b: seq<string>)
    ensures UsableOf(a + b) == UsableOf(a) + UsableOf(b)
  {
    hide NormalText, ShouldHandleLine;
    if b == [] {
      assert a + b == a;
    } else {
      var k := |b| - 1;
      assert (a + b)[..|a| + k] == a + b[..k];
      UsableOfAppend(a, b[..k]);
    }
  }

  /** A line is usable exactly when its text has eight bytes or more. */
  lemma UsableLine(line: string)
    ensures
      var text := NormalText(line);
      UsableOf([line]) == if |Encode(text)| >= 8 then [text] else []
  {
    hide NormalText;
    assert [line][..0] == [];
  }

  /** Nothing, or lines that are all ended. */
  predicate Complete(s: string) {
    s == "" || s[|s| - 1] == '\n'
  }

  /** The line may stand before `rest`, with its end in either form, or without one as the last line. */
  predicate LineBefore(line: string, end: string, rest: string) {
    && '\n' !in line
    && (|| (end == "\n" && StripCr(line) == line)
        || end == "\r\n"
        || (end == "" && rest == ""))
  }

  lemma NoLines()
    ensures Lines("") == []
  {
  }

  lemma LinesAt(s: string, i: nat)
    requires i < |s| && Find(s, '\n') == i
    ensures Lines(s) == [StripCr(s[..i])] + Lines(s[i + 1..])
  {
    hide Find, StripCr;
  }

  lemma {:induction false} LinesAppend(a: string, b: string)
    requires Complete(a)
    ensures Lines(a + b) == Lines(a) + Lines(b)
  {
    hide Find, StripCr, Lines;
    NoLines();
    if a == "" {
      assert a + b == b;
    } else {
      var i := Find(a, '\n');
      assert a[|a| - 1] == '\n' && i < |a|;
      var line, rest := a[..i], a[i + 1..];
      FindAt(line, '\n', rest + b);
      LinesAppend(rest, b);
      LinesAt(a, i);
      assert a + b == line + "\n" + (rest + b) && (a + b)[..i] == line && (a + b)[i + 1..] == rest + b;
      LinesAt(a + b, i);
    }
  }

  lemma LineRead(line: string, end: string, rest: string)
    requires LineBefore(line, end, rest)
    ensures Lines(line + end + rest) == (if line + end == "" then [] else [line]) + Lines(rest)
  {
    hide Find;
    var s := line + end + rest;
    if end == "\n" {
      FindAt(line, '\n', rest);
      assert s[..|line|] == line && s[|line| + 1..] == rest;
    } else if end == "\r\n" {
      var l := line + "\r";
      FindAt(l, '\n', rest);
      assert s == l + "\n" + rest && s[..|l|] == l && s[|l| + 1..] == rest;
    } else {
      assert s == line;
      FindNone(line, '\n');
    }
  }

  lemma EmptyLineUnusable()
    ensures UsableOf([""]) == [] && UsableOf([]) == []
  {
    hide NormalText;
    UsableLine("");
    NormalTextOfNothing();
    EncodeAscii("");
  }

  lemma PayloadLine(before: string, line: string, end: string, rest: string)
    requires Complete(before) && LineBefore(line, end, rest)
    ensures
      UsableOf(Lines(before + line + end + rest))
      == UsableOf(Lines(before)) + UsableOf([line]) + UsableOf(Lines(rest))
  {
    hide NormalText, Lines, UsableOf, Complete, LineBefore;
    assert before + line + end + rest == before + (line + end + rest);
    LinesAppend(before, line + end + rest);
    LineRead(line, end, rest);
    var one := if line + end == "" then [] else [line];
    UsableOfAppend(Lines(before), one + Lines(rest));
    UsableOfAppend(one, Lines(rest));
    EmptyLineUnusable();
  }

  /** Only the text of a line counts: lines of equal text are exchangeable in a payload. */
  lemma LineExchange(before: string, line: string, other: string, end: string, rest: string)
    requires Complete(before) && LineBefore(line, end, rest) && LineBefore(other, end, rest)
    requires NormalText(line) == NormalText(other)
    ensures UsableOf(Lines(before + line + end + rest)) == UsableOf(Lines(before + other + end + rest))
  {
    hide NormalText, Lines, UsableOf, Complete, LineBefore;
    PayloadLine(before, line, end, rest);
    PayloadLine(before, other, end, rest);
    UsableLine(line);
    UsableLine(other);
  }

  /** A line whose text is shorter than eight bytes may stand anywhere among the lines of a payload. */
  lemma ShortLineIgnored(before: string, line: string, end: string, rest: string)
    requires Complete(before) && LineBefore(line, end, rest) && |Encode(NormalText(line))| < 8
    ensures UsableOf(Lines(before + line + end + rest)) == UsableOf(Lines(before + rest))
  {
    hide NormalText, Lines, UsableOf, Complete, LineBefore;
    PayloadLine(before, line, end, rest);
    UsableLine(line);
    LinesAppend(before, rest);
    UsableOfAppend(Lines(before), Lines(rest));
  }

  // ----- what the predigest of a message ignores -----

  lemma {:induction false} UsableAppend(a: seq<string>, b: seq<string>)
    ensures Usable(a + b) == Usable(a) + Usable(b)
  {
    hide UsableOf, Lines;
    if b == [] {
      assert a + b == a;
    } else {
      var k := |b| - 1;
      assert (a + b)[..|a| + k] == a + b[..k];
      UsableAppend(a, b[..k]);
    }
  }

  lemma UsableOne(text: string)
    ensures Usable([text]) == UsableOf(Lines(text))
  {
    hide UsableOf, Lines;
    assert [text][..0] == [] && Usable([]) == [];
  }

  /** Messages whose payloads differ in one, and there not in the usable lines, have the same predigest. */
  lemma OnePayloadDiffers(bytes: seq<byte>, changed: seq<byte>, front: seq<string>, p: string, q: string,
                          back: seq<string>, spec: seq<Window>, registry: Registry)
    requires PayloadsOf(ParsePart(bytes), registry) == front + [p] + back
    requires PayloadsOf(ParsePart(changed), registry) == front + [q] + back
    requires UsableOf(Lines(p)) == UsableOf(Lines(q))
    ensures PredigestOf(bytes, spec, registry) == PredigestOf(changed, spec, registry)
  {
    hide ParsePart, PayloadsOf, Usable, UsableOf, Lines, Select;
    UsableAppend(front + [p], back);
    UsableAppend(front, [p]);
    UsableAppend(front + [q], back);
    UsableAppend(front, [q]);
    UsableOne(p);
    UsableOne(q);
  }

  /** In any payload of any message, a line may be exchanged for another of the same normal text: the predigest, and so
      the digest, stays. */
  lemma MessageLineExchange(bytes: seq<byte>, changed: seq<byte>, front: seq<string>, back: seq<string>, before: string,
                            line: string, other: string, end: string, rest: string, spec: seq<Window>, registry: Registry)
    requires PayloadsOf(ParsePart(bytes), registry) == front + [before + line + end + rest] + back
    requires PayloadsOf(ParsePart(changed), registry) == front + [before + other + end + rest] + back
    requires Complete(before) && LineBefore(line, end, rest) && LineBefore(other, end, rest)
    requires NormalText(line) == NormalText(other)
    ensures PredigestOf(bytes, spec, registry) == PredigestOf(changed, spec, registry)
  {
    hide PredigestOf, ParsePart, PayloadsOf, UsableOf, Lines, NormalText, Complete, LineBefore;
    LineExchange(before, line, other, end, rest);
    OnePayloadDiffers(bytes, changed, front, before + line + end + rest, before + other + end + rest, back, spec, registry);
  }

  /** In any payload of any message, a line whose normal text is shorter than eight bytes may be put in anywhere. */
  lemma MessageShortLine(bytes: seq<byte>, changed: seq<byte>, front: seq<string>, back: seq<string>, before: string,
                         line: string, end: string, rest: string, spec: seq<Window>, registry: Registry)
    requires PayloadsOf(ParsePart(bytes), registry) == front + [before + line + end + rest] + back
    requires PayloadsOf(ParsePart(changed), registry) == front + [before + rest] + back
    requires Complete(before) && LineBefore(line, end, rest) && |Encode(NormalText(line))| < 8
    ensures PredigestOf(bytes, spec, registry) == PredigestOf(changed, spec, registry)
  {
    hide PredigestOf, ParsePart, PayloadsOf, UsableOf, Lines, NormalText, Complete, LineBefore;
    ShortLineIgnored(before, line, end, rest);
    OnePayloadDiffers(bytes, changed, front, before + line + end + rest, before + rest, back, spec, registry);
  }

  // ----- messages of one text -----

  /** Header lines without a blank one among them. */
  predicate CleanHead(head: string) {
    && '\r' !in head
    && (head != "" ==> head[|head| - 1] != '\n')
    && (forall k | 0 < k < |head| :: head[k - 1] != '\n' || head[k] != '\n')
  }

  function PlainMessage(head: string, text: string): seq<byte> {
    Encode(head + "\n\n" + text)
  }

  lemma {:induction false} FindBlankAt(a: seq<byte>, b: seq<byte>)
    requires a != [] ==> a[|a| - 1] != 10
    requires forall k | 0 < k < |a| :: a[k - 1] != 10 || a[k] != 10
    ensures FindBlank(a + [10, 10] + b) == |a|
  {
    if a != [] {
      var s := a + [10, 10] + b;
      assert s[1..] == a[1..] + [10, 10] + b;
      assert forall k | 0 < k < |a[1..]| :: a[1..][k - 1] == a[k] && a[1..][k] == a[k + 1];
      FindBlankAt(a[1..], b);
    }
  }

  lemma PlainBytes(head: string, text: string)
    ensures PlainMessage(head, text) == Encode(head) + [10, 10] + Encode(text)
  {
    hide Encode;
    EncodeConcat(head + "\n\n", text);
    EncodeConcat(head, "\n\n");
    EncodeAscii("\n\n");
    assert Encode("\n\n") == [10, 10];
  }

  lemma FirstEncoded(s: string)
    ensures Encode(s) != [] && Encode(s)[0] == 10 ==> s[0] == '\n'
    ensures Encode(s) == [] ==> s == ""
  {
  }

  /** Two newline bytes in a row are two newlines in a row, */
  lemma NewlinePair(s: string, k: nat) returns (j: nat)
    requires 0 < k < |Encode(s)| && Encode(s)[k - 1] == 10 && Encode(s)[k] == 10
    ensures 0 < j < |s| && s[j - 1] == '\n' && s[j] == '\n'
  {
    hide Encode;
    var i := AsciiBoundary(s, k - 1);
    NothingEncoded();
    assert Encode(s)[k - 1 + 1..][0] == 10;
    FirstEncoded(s[i + 1..]);
    assert s[i + 1..][0] == s[i + 1];
    j := i + 1;
  }

  /** and a last newline byte is a last newline. */
  lemma LastNewline(s: string)
    requires s != "" && Encode(s)[|Encode(s)| - 1] == 10
    ensures s[|s| - 1] == '\n'
  {
    hide Encode;
    var i := AsciiBoundary(s, |Encode(s)| - 1);
    FirstEncoded(s[i + 1..]);
    assert |s[i + 1..]| == 0;
  }

  lemma PlainBlank(head: string, text: string)
    requires CleanHead(head)
    ensures FindBlank(PlainMessage(head, text)) == |Encode(head)|
  {
    hide FindBlank, Encode, PlainMessage;
    PlainBytes(head, text);
    var b := Encode(head);
    forall k | 0 < k < |b|
      ensures b[k - 1] != 10 || b[k] != 10
    {
      if b[k - 1] == 10 && b[k] == 10 {
        var j := NewlinePair(head, k);
      }
    }
    FirstEncoded(head);
    if b != [] && b[|b| - 1] == 10 {
      NothingEncoded();
      LastNewline(head);
    }
    FindBlankAt(b, Encode(text));
  }

  lemma NothingEncoded()
    ensures Encode("") == []
  {
  }

  /** However its lines end, a message is read as the head and the text that it has with newlines. */
  lemma TextPart(message: string, head: string, text: string)
    requires NormalizeText(message) == head + "\n\n" + text && CleanHead(head)
    ensures ParsePart(Encode(message)) == Part(HeaderLines([], Lines(head)), Encode(text))
  {
    hide HeaderLines, Lines, NormalizeNewlines, NormalizeText, FindBlank, Lossy, Encode;
    NormalizeEncoded(message);
    PlainBytes(head, text);
    PlainBlank(head, text);
    ReadEncoded(head);
    var n, i := PlainMessage(head, text), |Encode(head)|;
    assert n[..i] == Encode(head) && n[i + 2..] == Encode(text);
  }

  lemma PlainPart(head: string, text: string)
    requires CleanHead(head) && '\r' !in text
    ensures ParsePart(PlainMessage(head, text)) == Part(HeaderLines([], Lines(head)), Encode(text))
  {
    hide HeaderLines, Lines, ParsePart, Encode, NormalizeText;
    NormalizeTextIdentity(head + "\n\n" + text);
    TextPart(head + "\n\n" + text, head, text);
  }

  /** A head under which the text is read as it is: a text type, no transfer encoding, and a charset that has all its
      characters. */
  predicate ReadableHead(head: string, text: string) {
    var part := Part(HeaderLines([], Lines(head)), Encode(text));
    var kind := ContentTypeOf(part);
    var decoder := DecoderOf(kind.charset.GetOr("ascii"));
    && CleanHead(head)
    && kind.main == "text"
    && Lower(Trim(TransferEncodingOf(part))) !in {"quoted-printable", "quopri", "base64"}
    && (decoder == Unicode || (decoder == Ascii && IsAscii(text)))
  }

  predicate IsHtml(head: string) {
    ContentTypeOf(Part(HeaderLines([], Lines(head)), [])).sub == "html"
  }

  /** Such a head of another text than HTML. */
  predicate TextHead(head: string, text: string) {
    ReadableHead(head, text) && !IsHtml(head)
  }

  lemma {:induction false} DecodeAsciiEncoded(s: string)
    requires IsAscii(s)
    ensures DecodeAscii(Encode(s)) == s
  {
    if s != "" {
      DecodeAsciiEncoded(s[1..]);
      assert Encode(s)[1..] == Encode(s[1..]);
    }
  }

  lemma CharsetText(text: string, charset: string, registry: Registry)
    requires DecoderOf(charset) == Unicode || (DecoderOf(charset) == Ascii && IsAscii(text))
    ensures DecodeCharset(Encode(text), charset, registry) == text
  {
    hide DecoderOf, Encode, DecodeAscii, Ignore;
    IgnoreEncoded(text);
    if IsAscii(text) {
      DecodeAsciiEncoded(text);
    }
  }

  lemma PlainTransfer(bytes: seq<byte>, encoding: string)
    requires Lower(Trim(encoding)) !in {"quoted-printable", "quopri", "base64"}
    ensures DecodeTransfer(bytes, encoding) == bytes
  {
  }

  lemma TypeWithoutBody(headers: seq<Header>, body: seq<byte>)
    ensures ContentTypeOf(Part(headers, body)) == ContentTypeOf(Part(headers, []))
  {
    hide ParseContentType;
  }

  /** The one payload of a text message is its text, and the text of its document for HTML. */
  lemma ReadablePayloads(message: string, head: string, text: string, registry: Registry)
    requires NormalizeText(message) == head + "\n\n" + text && ReadableHead(head, text)
    ensures
      PayloadsOf(ParsePart(Encode(message)), registry) == [if IsHtml(head) then Html.HtmlText(text) else text]
  {
    hide Html.HtmlText, ParsePart, ContentTypeOf, TransferEncodingOf, DecodeTransfer, DecodeCharset, DecoderOf, Trim, Lower, Encode,
         HeaderLines, Lines, NormalizeText, IsAscii, CleanHead;
    TextPart(message, head, text);
    var part := Part(HeaderLines([], Lines(head)), Encode(text));
    PlainTransfer(part.body, TransferEncodingOf(part));
    CharsetText(text, ContentTypeOf(part).charset.GetOr("ascii"), registry);
    TypeWithoutBody(part.headers, part.body);
  }

  lemma TextPayloads(message: string, head: string, text: string, registry: Registry)
    requires NormalizeText(message) == head + "\n\n" + text && TextHead(head, text)
    ensures PayloadsOf(ParsePart(Encode(message)), registry) == [text]
  {
    hide Html.HtmlText, ParsePart, PayloadsOf, NormalizeText, ReadableHead, IsHtml, Encode;
    ReadablePayloads(message, head, text, registry);
  }

  /** The digest of a text message of up to four usable lines is the hash of their text, all in one. */
  lemma ShortTextDigest(message: string, head: string, text: string, spec: seq<Window>, registry: Registry)
    requires NormalizeText(message) == head + "\n\n" + text && TextHead(head, text)
    requires |UsableOf(Lines(text))| <= 4
    ensures DigestOf(Encode(message), spec, registry) == HexText(Fips180.Hash(Encode(Join(UsableOf(Lines(text)), ""))))
  {
    hide ParsePart, PayloadsOf, UsableOf, Lines, NormalizeText, TextHead, Encode, Fips180.Hash, HexText, Join, EncodedLines;
    TextPayloads(message, head, text, registry);
    OneUsable(text);
    EncodedLinesJoin(UsableOf(Lines(text)));
  }

  lemma OneUsable(text: string)
    ensures Usable([text]) == UsableOf(Lines(text))
  {
    hide UsableOf, Lines;
    assert [text][..0] == [];
  }

  /** In a text message of any line ends, a line may be exchanged for another of the same normal text, */
  lemma TextLineExchange(message: string, changed: string, head: string, before: string, line: string, other: string,
                         end: string, rest: string, spec: seq<Window>, registry: Registry)
    requires Complete(before) && LineBefore(line, end, rest) && LineBefore(other, end, rest)
    requires NormalText(line) == NormalText(other)
    requires TextHead(head, before + line + end + rest) && TextHead(head, before + other + end + rest)
    requires NormalizeText(message) == head + "\n\n" + (before + line + end + rest)
    requires NormalizeText(changed) == head + "\n\n" + (before + other + end + rest)
    ensures PredigestOf(Encode(message), spec, registry) == PredigestOf(Encode(changed), spec, registry)
  {
    hide PredigestOf, ParsePart, PayloadsOf, NormalText, NormalizeText, TextHead, Encode, Complete, LineBefore;
    var t, u := before + line + end + rest, before + other + end + rest;
    TextPayloads(message, head, t, registry);
    TextPayloads(changed, head, u, registry);
    assert [] + [t] + [] == [t] && [] + [u] + [] == [u];
    MessageLineExchange(Encode(message), Encode(changed), [], [], before, line, other, end, rest, spec, registry);
  }

  /** and a line whose normal text is shorter than eight bytes may be put in. */
  lemma TextShortLine(message: string, changed: string, head: string, before: string, line: string, end: string,
                      rest: string, spec: seq<Window>, registry: Registry)
    requires Complete(before) && LineBefore(line, end, rest) && |Encode(NormalText(line))| < 8
    requires TextHead(head, before + line + end + rest) && TextHead(head, before + rest)
    requires NormalizeText(message) == head + "\n\n" + (before + line + end + rest)
    requires NormalizeText(changed) == head + "\n\n" + (before + rest)
    ensures PredigestOf(Encode(message), spec, registry) == PredigestOf(Encode(changed), spec, registry)
  {
    hide PredigestOf, ParsePart, PayloadsOf, NormalText, NormalizeText, TextHead, Encode, Complete, LineBefore;
    var t, u := before + line + end + rest, before + rest;
    TextPayloads(message, head, t, registry);
    TextPayloads(changed, head, u, registry);
    assert [] + [t] + [] == [t] && [] + [u] + [] == [u];
    MessageShortLine(Encode(message), Encode(changed), [], [], before, line, end, rest, spec, registry);
  }

  // ----- messages without a type -----

  /** Headers that name neither a type nor a transfer encoding. */
  ghost predicate PlainHead(head: string) {
    var headers := HeaderLines([], Lines(head));
    && CleanHead(head)
    && FindHeader(headers, "Content-Type").None?
    && FindHeader(headers, "Content-Transfer-Encoding").None?
  }

  lemma {:induction false} LowerIdentity(s: string)
    requires forall k | 0 <= k < |s| :: !('A' <= s[k] <= 'Z')
    ensures Lower(s) == s
  {
    if s != "" {
      LowerIdentity(s[1..]);
    }
  }

  lemma DefaultMedia()
    ensures SplitOnce("text/plain", '/') == Some(("text", "plain"))
  {
    hide Find;
    FindAt("text", '/', "plain");
    var v := "text/plain";
    assert v == "text" + ['/'] + "plain" && v[..4] == "text" && v[5..] == "plain";
  }

  lemma Trimmed(s: string)
    requires s != "" && !IsWhitespace(s[0]) && !IsWhitespace(s[|s| - 1])
    ensures Trim(s) == s
  {
    hide IsWhitespace;
  }

  lemma DefaultType()
    ensures ParseContentType("text/plain") == ContentType("text", "plain", None, None)
  {
    hide Find, Lower, SplitOnce, Trim;
    var v := "text/plain";
    FindNone(v, ';');
    Trimmed(v);
    Trimmed("text");
    Trimmed("plain");
    LowerIdentity(v);
    DefaultMedia();
    assert Split(v, ';') == [v] && [v][1..] == [];
  }

  lemma DefaultEncoding(b: seq<byte>)
    ensures DecodeTransfer(b, Trim("7bit")) == b && Lower(Trim(Trim("7bit"))) == "7bit"
  {
    hide Trim, Lower, Transfer.QuotedPrintable, Transfer.Unpack, Transfer.Sextets;
    Trimmed("7bit");
    LowerIdentity("7bit");
  }

  lemma DefaultCharset()
    ensures DecoderOf("ascii") == Ascii
  {
    hide Lower, Replace;
    LowerIdentity("ascii");
    ReplaceAbsent("ascii", "_", "-");
    ReplaceAbsent("ascii", "\0", "");
  }

  lemma PlainIsText(head: string, text: string)
    requires PlainHead(head) && IsAscii(text)
    ensures TextHead(head, text)
  {
    hide ParseContentType, DecoderOf, Trim, Lower, FindHeader, Encode, HeaderLines, Lines, IsAscii, CleanHead;
    DefaultType();
    DefaultEncoding(Encode(text));
    DefaultCharset();
  }

  /** The one payload of a plain message is its text. */
  lemma PlainPayloads(head: string, text: string, registry: Registry)
    requires PlainHead(head) && IsAscii(text) && '\r' !in text
    ensures PayloadsOf(ParsePart(PlainMessage(head, text)), registry) == [text]
  {
    hide ParsePart, PayloadsOf, TextHead, Encode, NormalizeText, HeaderLines, Lines, FindHeader;
    PlainIsText(head, text);
    NormalizeTextIdentity(head + "\n\n" + text);
    TextPayloads(head + "\n\n" + text, head, text, registry);
  }

  // ----- which lines are selected -----

  predicate Increasing(s: seq<nat>) {
    forall i, j | 0 <= i < j < |s| :: s[i] < s[j]
  }

  lemma DefaultIndices(n: nat)
    ensures
      Indices(DIGEST_SPEC, n)
      == [20 * n / 100, 20 * n / 100 + 1, 20 * n / 100 + 2, 60 * n / 100, 60 * n / 100 + 1, 60 * n / 100 + 2]
  {
    hide Indices;
    var a, b := (20, 3), (60, 3);
    IndicesSnoc([], a, n);
    IndicesSnoc([a], b, n);
    assert [] + [a] == [a] && [a] + [b] == DIGEST_SPEC;
    NoIndices(n);
  }

  lemma IndicesSnoc(spec: seq<Window>, w: Window, n: nat)
    ensures Indices(spec + [w], n) == Indices(spec, n) + WindowIndices(w.0, w.1, n)
  {
    assert (spec + [w])[..|spec|] == spec;
  }

  lemma NoIndices(n: nat)
    ensures Indices([], n) == []
  {
  }

  /** With the default windows all six positions exist exactly from six lines on, and the two windows
      follow each other without overlap exactly from seven lines on. */
  lemma DefaultWindows(n: nat)
    requires n >= 5
    ensures |Indices(DIGEST_SPEC, n)| == 6
    ensures (forall k | 0 <= k < 6 :: Indices(DIGEST_SPEC, n)[k] < n) <==> n >= 6
    ensures Increasing(Indices(DIGEST_SPEC, n)) <==> n >= 7
  {
    hide Indices;
    DefaultIndices(n);
    var r := Indices(DIGEST_SPEC, n);
    var i, j := 20 * n / 100, 60 * n / 100;
    assert j + 2 < n <==> n >= 6;
    assert i + 2 < j <==> n >= 7;
    assert r == [i, i + 1, i + 2, j, j + 1, j + 2];
    assert r[2] == i + 2 && r[3] == j && r[5] == j + 2;
    assert i <= j;
  }

  /** Up to four usable lines are all selected; of five, the second to the fifth are, the fourth twice. */
  lemma FewLines(lines: seq<string>)
    ensures |lines| <= 4 ==> Select(lines, DIGEST_SPEC) == lines
    ensures |lines| == 5 ==> Select(lines, DIGEST_SPEC) == [lines[1], lines[2], lines[3], lines[3], lines[4]]
  {
    hide Indices, Pick;
    if |lines| == 5 {
      DefaultIndices(5);
      PickNothing(lines);
      PickAppend(lines, [], 1);
      PickAppend(lines, [1], 2);
      PickAppend(lines, [1, 2], 3);
      PickAppend(lines, [1, 2, 3], 3);
      PickAppend(lines, [1, 2, 3, 3], 4);
      PickAppend(lines, [1, 2, 3, 3, 4], 5);
      assert [] + [1] == [1] && [1] + [2] == [1, 2] && [1, 2] + [3] == [1, 2, 3] && [1, 2, 3] + [3] == [1, 2, 3, 3];
      assert [1, 2, 3, 3] + [4] == [1, 2, 3, 3, 4] && [1, 2, 3, 3, 4] + [5] == [1, 2, 3, 3, 4, 5];
    }
  }

  lemma {:induction false} PickAll(lines: seq<string>, indices: seq<nat>)
    requires forall k | 0 <= k < |indices| :: indices[k] < |lines|
    ensures |Pick(lines, indices)| == |indices|
    ensures forall k | 0 <= k < |indices| :: Pick(lines, indices)[k] == lines[indices[k]]
  {
    if indices != [] {
      PickAll(lines, indices[..|indices| - 1]);
    }
  }

  /** At least six usable lines give exactly six selected ones: three from the first window, three
      from the second. */
  lemma SixLines(lines: seq<string>)
    requires |lines| >= 6
    ensures
      var r := Select(lines, DIGEST_SPEC);
      var i, j := 20 * |lines| / 100, 60 * |lines| / 100;
      && |r| == 6 && j + 2 < |lines|
      && r == lines[i..i + 3] + lines[j..j + 3]
  {
    hide Indices, Pick;
    DefaultIndices(|lines|);
    DefaultWindows(|lines|);
    PickAll(lines, Indices(DIGEST_SPEC, |lines|));
  }
}
