/** The parts of Rust's `str` and slice interface that the program uses, on sequences. */
module Text {
  import opened Wrappers

  type byte = x: int | 0 <= x < 256

  // ----- searching, splitting and joining -----

  /** The index of the first `c`, or the length when there is none. */
  function Find<T(==)>(s: seq<T>, c: T): (i: nat)
    ensures i <= |s| && (i < |s| ==> s[i] == c)
    ensures forall k | 0 <= k < i :: s[k] != c
  {
    if s == [] || s[0] == c then 0 else 1 + Find(s[1..], c)
  }

  /** `split(c)`: the pieces between the separators, at least one. */
  function Split<T(==)>(s: seq<T>, c: T): (parts: seq<seq<T>>)
    ensures |parts| > 0
  {
    var i := Find(s, c);
    if i == |s| then [s] else [s[..i]] + Split(s[i + 1..], c)
  }

  function Join<T>(parts: seq<seq<T>>, separator: seq<T>): seq<T> {
    if parts == [] then []
    else if |parts| == 1 then parts[0]
    else parts[0] + separator + Join(parts[1..], separator)
  }

  lemma {:induction false} JoinSnoc<T>(parts: seq<seq<T>>, x: seq<T>, separator: seq<T>)
    ensures Join(parts + [x], separator) == if parts == [] then x else Join(parts, separator) + separator + x
  {
    if parts == [] {
      assert parts + [x] == [x];
    } else {
      assert (parts + [x])[1..] == parts[1..] + [x];
      JoinSnoc(parts[1..], x, separator);
    }
  }

  lemma JoinThree<T>(a: seq<T>, b: seq<T>, d: seq<T>, separator: seq<T>)
    ensures Join([a, b, d], separator) == a + separator + b + separator + d
  {
    assert [a, b, d][1..] == [b, d] && [b, d][1..] == [d];
    assert Join([b, d], separator) == b + separator + d;
    assert Join([a, b, d], separator) == a + separator + (b + separator + d);
  }

  /** `split_once(c)`. */
  function SplitOnce<T(==)>(s: seq<T>, c: T): Option<(seq<T>, seq<T>)> {
    var i := Find(s, c);
    if i == |s| then None else Some((s[..i], s[i + 1..]))
  }

  lemma FindAt<T>(a: seq<T>, c: T, b: seq<T>)
    requires c !in a
    ensures Find(a + [c] + b, c) == |a|
  {
    var s := a + [c] + b;
    assert s[|a|] == c;
    assert forall k | 0 <= k < |a| :: s[k] == a[k];
  }

  lemma FindNone<T>(a: seq<T>, c: T)
    requires c !in a
    ensures Find(a, c) == |a|
  {
  }

  lemma SplitStep<T>(a: seq<T>, c: T, b: seq<T>)
    requires c !in a
    ensures Split(a + [c] + b, c) == [a] + Split(b, c)
  {
    FindAt(a, c, b);
    assert (a + [c] + b)[..|a|] == a && (a + [c] + b)[|a| + 1..] == b;
  }

  /** Splitting undoes joining. */
  lemma {:induction false} SplitJoin<T>(parts: seq<seq<T>>, c: T)
    requires |parts| > 0
    requires forall p | p in parts :: c !in p
    ensures Split(Join(parts, [c]), c) == parts
  {
    if |parts| == 1 {
      FindNone(parts[0], c);
    } else {
      SplitStep(parts[0], c, Join(parts[1..], [c]));
      SplitJoin(parts[1..], c);
    }
  }

  /** Joining undoes splitting, and no piece holds the separator. */
  lemma {:induction false} JoinSplit<T>(s: seq<T>, c: T)
    ensures Join(Split(s, c), [c]) == s
    ensures forall p | p in Split(s, c) :: c !in p
  {
    var i := Find(s, c);
    if i < |s| {
      JoinSplit(s[i + 1..], c);
      assert s == s[..i] + [c] + s[i + 1..];
    }
  }

  /** `replace(pattern, with)`: matches are taken from the left and do not overlap. */
  function Replace(s: string, pattern: string, with: string): string
    requires |pattern| > 0
  {
    if |s| < |pattern| then s
    else if s[..|pattern|] == pattern then with + Replace(s[|pattern|..], pattern, with)
    else [s[0]] + Replace(s[1..], pattern, with)
  }

  lemma {:induction false} ReplaceAbsent(s: string, pattern: string, with: string)
    requires |pattern| > 0 && pattern[0] !in s
    ensures Replace(s, pattern, with) == s
  {
    if |s| >= |pattern| {
      assert s[..|pattern|][0] == s[0];
      ReplaceAbsent(s[1..], pattern, with);
    }
  }

  lemma ReplaceSkip(s: string, pattern: string, with: string)
    requires pattern != "" && s != "" && !(pattern <= s)
    ensures Replace(s, pattern, with) == [s[0]] + Replace(s[1..], pattern, with)
  {
    if |s| < |pattern| {
      assert Replace(s[1..], pattern, with) == s[1..];
    }
  }

  lemma ReplaceMatch(s: string, pattern: string, with: string)
    requires pattern != ""
    ensures Replace(pattern + s, pattern, with) == with + Replace(s, pattern, with)
  {
    assert (pattern + s)[..|pattern|] == pattern && (pattern + s)[|pattern|..] == s;
  }

  lemma ReplaceFirst(s: string, c: char, with: string)
    requires s != ""
    ensures Replace(s, [c], with) == (if s[0] == c then with else [s[0]]) + Replace(s[1..], [c], with)
  {
    assert s[..1] == [s[0]];
  }

  /** A replacement no longer than its pattern does not lengthen the text. */
  lemma {:induction false} ReplaceShrinks(s: string, pattern: string, with: string)
    requires |with| <= |pattern| && |pattern| > 0
    ensures |Replace(s, pattern, with)| <= |s|
  {
    if |s| >= |pattern| {
      if s[..|pattern|] == pattern {
        ReplaceShrinks(s[|pattern|..], pattern, with);
      } else {
        ReplaceShrinks(s[1..], pattern, with);
      }
    }
  }

  // ----- white space -----

  /** The White_Space property of Unicode, as `char::is_whitespace` tests it. */
  predicate IsWhitespace(c: char) {
    var u := c as int;
    || 0x09 <= u <= 0x0D || u == 0x20 || u == 0x85 || u == 0xA0 || u == 0x1680
    || 0x2000 <= u <= 0x200A || u == 0x2028 || u == 0x2029 || u == 0x202F || u == 0x205F || u == 0x3000
  }

  lemma WhitespaceExactly(c: char)
    ensures IsWhitespace(c) <==>
      || c in {'\t', '\n', '\U{000B}', '\U{000C}', '\r', ' ', '\U{0085}', '\U{00A0}', '\U{1680}', '\U{2028}', '\U{2029}',
               '\U{202F}', '\U{205F}', '\U{3000}'}
      || '\U{2000}' <= c <= '\U{200A}'
  {
  }

  function TrimStart(s: string): (r: string)
    ensures |r| <= |s| && r == s[|s| - |r|..]
    ensures r != "" ==> !IsWhitespace(r[0])
  {
    if s != "" && IsWhitespace(s[0]) then TrimStart(s[1..]) else s
  }

  function TrimEnd(s: string): (r: string)
    ensures |r| <= |s| && r == s[..|r|]
    ensures r != "" ==> !IsWhitespace(r[|r| - 1])
  {
    if s != "" && IsWhitespace(s[|s| - 1]) then TrimEnd(s[..|s| - 1]) else s
  }

  function Trim(s: string): (r: string)
    ensures |r| <= |s|
  {
    TrimEnd(TrimStart(s))
  }

  predicate AllWhitespace(s: string) {
    forall c | c in s :: IsWhitespace(c)
  }

  lemma {:induction false} TrimEndPad(s: string, pad: string)
    requires AllWhitespace(pad) && TrimEnd(s) == s
    ensures TrimEnd(s + pad) == s
  {
    if pad == "" {
      assert s + pad == s;
    } else {
      assert (s + pad)[..|s + pad| - 1] == s + pad[..|pad| - 1];
      assert IsWhitespace(pad[|pad| - 1]);
      TrimEndPad(s, pad[..|pad| - 1]);
    }
  }

  /** `split_whitespace()`. */
  function SplitWhitespace(s: string): seq<string>
    decreases |s|
  {
    if s == "" then []
    else if IsWhitespace(s[0]) then SplitWhitespace(s[1..])
    else
      var n := TokenLength(s);
      [s[..n]] + SplitWhitespace(s[n..])
  }

  function TokenLength(s: string): (n: nat)
    ensures n <= |s| && (n < |s| ==> IsWhitespace(s[n]))
    ensures forall k | 0 <= k < n :: !IsWhitespace(s[k])
    ensures s != "" && !IsWhitespace(s[0]) ==> n > 0
  {
    if s == "" || IsWhitespace(s[0]) then 0 else 1 + TokenLength(s[1..])
  }

  lemma TokenLengthPrefix(a: string, b: string)
    requires b == "" || IsWhitespace(b[0])
    ensures TokenLength(a + b) == TokenLength(a)
  {
    assert forall k | 0 <= k < |a| :: (a + b)[k] == a[k];
    assert b != "" ==> (a + b)[|a|] == b[0];
  }

  lemma SplitFirst(s: string)
    ensures
      SplitWhitespace(s)
      == if s == "" then []
         else if IsWhitespace(s[0]) then SplitWhitespace(s[1..])
         else [s[..TokenLength(s)]] + SplitWhitespace(s[TokenLength(s)..])
  {
    hide IsWhitespace;
  }

  lemma CutFirst(a: string, c: string, n: nat)
    requires n <= |a|
    ensures (a + c)[..n] == a[..n] && (a + c)[n..] == a[n..] + c
  {
  }

  lemma {:induction false} SplitPrefix(a: string, c: string)
    requires c == "" || IsWhitespace(c[0])
    ensures SplitWhitespace(a + c) == SplitWhitespace(a) + SplitWhitespace(c)
    decreases |a|
  {
    hide IsWhitespace, TokenLength, SplitWhitespace;
    SplitFirst(a + c);
    SplitFirst(a);
    if a == "" {
      assert a + c == c;
    } else if IsWhitespace(a[0]) {
      CutFirst(a, c, 1);
      SplitPrefix(a[1..], c);
    } else {
      TokenLengthPrefix(a, c);
      CutFirst(a, c, TokenLength(a));
      SplitPrefix(a[TokenLength(a)..], c);
    }
  }

  /** White space between two texts separates their tokens. */
  lemma SplitWhitespaceConcat(a: string, w: char, b: string)
    requires IsWhitespace(w)
    ensures SplitWhitespace(a + [w] + b) == SplitWhitespace(a) + SplitWhitespace(b)
  {
    hide IsWhitespace, SplitWhitespace;
    var c := [w] + b;
    assert a + [w] + b == a + c && c[1..] == b;
    SplitPrefix(a, c);
    SplitFirst(c);
  }

  predicate IsAscii(s: string) {
    forall k | 0 <= k < |s| :: s[k] as int < 0x80
  }

  // ----- trimming a character, lower case -----

  function TrimStartOf(s: string, c: char): (r: string)
    ensures |r| <= |s|
  {
    if s != "" && s[0] == c then TrimStartOf(s[1..], c) else s
  }

  function TrimEndOf(s: string, c: char): (r: string)
    ensures |r| <= |s|
  {
    if s != "" && s[|s| - 1] == c then TrimEndOf(s[..|s| - 1], c) else s
  }

  /** `trim_matches(c)`. */
  function TrimOf(s: string, c: char): string {
    TrimEndOf(TrimStartOf(s, c), c)
  }

  function LowerChar(c: char): char {
    if 'A' <= c <= 'Z' then (c as int + 32) as char else c
  }

  /** ASCII lower case. It is exact where the result is compared with words of ASCII letters other than k,
      the one such letter that another character (the Kelvin sign) also lowers to. */
  function Lower(s: string): (r: string)
    ensures |r| == |s|
  {
    if s == "" then "" else [LowerChar(s[0])] + Lower(s[1..])
  }

  /** The text is the word in any case. */
  predicate AnyCase(s: string, word: string) {
    && |s| == |word|
    && forall k | 0 <= k < |s| :: s[k] == word[k] || ('A' <= s[k] <= 'Z' && word[k] as int == s[k] as int + 32)
  }

  predicate NoCapital(s: string) {
    forall k | 0 <= k < |s| :: !('A' <= s[k] <= 'Z')
  }

  lemma {:induction false} LowerExactly(s: string, word: string)
    requires NoCapital(word)
    ensures Lower(s) == word <==> AnyCase(s, word)
  {
    if s != "" && word != "" {
      LowerExactly(s[1..], word[1..]);
      assert Lower(s) == [LowerChar(s[0])] + Lower(s[1..]) && word == [word[0]] + word[1..];
      AnyCaseFirst(s, word);
    }
  }

  lemma AnyCaseFirst(s: string, word: string)
    requires s != "" && word != ""
    ensures AnyCase(s, word)
       <==> AnyCase(s[1..], word[1..])
            && (s[0] == word[0] || ('A' <= s[0] <= 'Z' && word[0] as int == s[0] as int + 32))
  {
    if AnyCase(s[1..], word[1..]) {
      forall k | 1 <= k < |s|
        ensures s[k] == word[k] || ('A' <= s[k] <= 'Z' && word[k] as int == s[k] as int + 32)
      {
        assert s[k] == s[1..][k - 1] && word[k] == word[1..][k - 1];
      }
    }
  }

  predicate EqIgnoreAsciiCase(a: string, b: string) {
    Lower(a) == Lower(b)
  }

  /** The same letter in two cases, or the same character. */
  predicate SameLetter(c: char, d: char) {
    || c == d
    || ('A' <= c <= 'Z' && d as int == c as int + 32)
    || ('A' <= d <= 'Z' && c as int == d as int + 32)
  }

  lemma {:induction false} EqIgnoreExactly(a: string, b: string)
    ensures EqIgnoreAsciiCase(a, b) <==> |a| == |b| && forall k | 0 <= k < |a| :: SameLetter(a[k], b[k])
  {
    if a != "" && b != "" {
      EqIgnoreExactly(a[1..], b[1..]);
      assert Lower(a) == [LowerChar(a[0])] + Lower(a[1..]) && Lower(b) == [LowerChar(b[0])] + Lower(b[1..]);
      assert Lower(a) == Lower(b) <==> LowerChar(a[0]) == LowerChar(b[0]) && Lower(a[1..]) == Lower(b[1..]) by {
        assert Lower(a)[0] == LowerChar(a[0]) && Lower(a)[1..] == Lower(a[1..]);
        assert Lower(b)[0] == LowerChar(b[0]) && Lower(b)[1..] == Lower(b[1..]);
      }
      if |a| == |b| && SameLetter(a[0], b[0]) && forall k | 0 <= k < |a| - 1 :: SameLetter(a[1..][k], b[1..][k]) {
        assert forall k | 1 <= k < |a| :: a[k] == a[1..][k - 1] && b[k] == b[1..][k - 1];
      }
    }
  }

  // ----- lines -----

  function StripCr(s: string): string {
    if s != "" && s[|s| - 1] == '\r' then s[..|s| - 1] else s
  }

  /** `lines()`: pieces ended by "\n" or "\r\n", and what follows the last "\n" unless empty. */
  function Lines(s: string): seq<string> {
    if s == "" then []
    else
      var i := Find(s, '\n');
      if i == |s| then [s] else [StripCr(s[..i])] + Lines(s[i + 1..])
  }

  /** Lines each ended by a newline. */
  function Terminated(lines: seq<string>): string {
    if lines == [] then "" else lines[0] + "\n" + Terminated(lines[1..])
  }

  predicate PlainLine(s: string) {
    '\n' !in s && '\r' !in s
  }

  predicate PlainLines(lines: seq<string>) {
    forall l | l in lines :: PlainLine(l)
  }

  lemma PlainConcat(a: string, b: string)
    requires PlainLine(a) && PlainLine(b)
    ensures PlainLine(a + b)
  {
    forall c | c in a + b
      ensures c != '\n' && c != '\r'
    {
      assert c in a || c in b;
    }
  }

  lemma LinesStep(l: string, rest: string)
    requires PlainLine(l)
    ensures Lines(l + "\n" + rest) == [l] + Lines(rest)
  {
    FindAt(l, '\n', rest);
    assert (l + "\n" + rest)[..|l|] == l && (l + "\n" + rest)[|l| + 1..] == rest;
  }

  lemma {:induction false} LinesTerminated(lines: seq<string>, rest: string)
    requires PlainLines(lines)
    ensures Lines(Terminated(lines) + rest) == lines + Lines(rest)
  {
    hide Lines, PlainLine;
    if lines == [] {
      assert Terminated(lines) + rest == rest;
    } else {
      assert Terminated(lines) + rest == lines[0] + "\n" + (Terminated(lines[1..]) + rest);
      LinesStep(lines[0], Terminated(lines[1..]) + rest);
      LinesTerminated(lines[1..], rest);
    }
  }

  lemma {:induction false} TerminatedAppend(a: seq<string>, b: seq<string>)
    ensures Terminated(a + b) == Terminated(a) + Terminated(b)
  {
    if a == [] {
      assert a + b == b;
    } else {
      assert (a + b)[1..] == a[1..] + b;
      TerminatedAppend(a[1..], b);
    }
  }

  lemma {:induction false} TerminatedPlain(lines: seq<string>)
    requires PlainLines(lines)
    ensures '\r' !in Terminated(lines)
  {
    if lines != [] {
      assert PlainLine(lines[0]);
      TerminatedPlain(lines[1..]);
    }
  }

  /** A text followed by a newline is the terminated form of its split. */
  lemma {:induction false} TerminatedSplit(s: string)
    ensures Terminated(Split(s, '\n')) == s + "\n"
  {
    hide Find;
    var i := Find(s, '\n');
    if i < |s| {
      TerminatedSplit(s[i + 1..]);
      var rest := Split(s[i + 1..], '\n');
      assert ([s[..i]] + rest)[1..] == rest;
      assert s == s[..i] + "\n" + s[i + 1..];
    } else {
      assert Terminated([s]) == s + "\n" + Terminated([]);
    }
  }

  lemma {:induction false} LinesLength(s: string)
    ensures |Terminated(Lines(s))| <= |s| + 1
  {
    hide Find;
    if s != "" {
      var i := Find(s, '\n');
      if i < |s| {
        LinesLength(s[i + 1..]);
        FirstTerminated(StripCr(s[..i]), Lines(s[i + 1..]));
      } else {
        FirstTerminated(s, []);
        assert [s] + [] == [s];
      }
    }
  }

  lemma FirstTerminated(line: string, rest: seq<string>)
    ensures |Terminated([line] + rest)| == |line| + 1 + |Terminated(rest)|
  {
    assert ([line] + rest)[1..] == rest;
  }

  // ----- decimal numbers -----

  const I64_MIN: int := -0x8000_0000_0000_0000
  const I64_MAX: int := 0x7fff_ffff_ffff_ffff

  type i64 = x: int | I64_MIN <= x <= I64_MAX

  /** Two's complement arithmetic of 64 bits. */
  function Wrap64(x: int): i64 {
    (x - I64_MIN) % 0x1_0000_0000_0000_0000 + I64_MIN
  }

  predicate IsDigit(c: char) {
    '0' <= c <= '9'
  }

  function DigitChar(d: int): (c: char)
    requires 0 <= d < 10
    ensures IsDigit(c) && DigitValue(c) == d
  {
    (48 + d) as char
  }

  function DigitValue(c: char): (d: int)
    requires IsDigit(c)
    ensures 0 <= d < 10
  {
    c as int - 48
  }

  predicate AllDigits(s: string) {
    forall c | c in s :: IsDigit(c)
  }

  function NatText(n: nat): (s: string)
    ensures s != "" && AllDigits(s)
  {
    if n < 10 then [DigitChar(n)] else NatText(n / 10) + [DigitChar(n % 10)]
  }

  function Value(s: string): (n: nat)
    requires AllDigits(s)
  {
    if s == "" then 0 else Value(s[..|s| - 1]) * 10 + DigitValue(s[|s| - 1])
  }

  lemma {:induction false} ValueOfNatText(n: nat)
    ensures Value(NatText(n)) == n
  {
    if n >= 10 {
      ValueOfNatText(n / 10);
      assert NatText(n)[..|NatText(n)| - 1] == NatText(n / 10);
    } else {
      assert NatText(n)[..0] == "";
    }
  }

  /** `to_string()` of an integer. */
  function IntText(n: int): (s: string)
    ensures s != "" && (n >= 0 ==> AllDigits(s))
  {
    if n < 0 then "-" + NatText(-n) else NatText(n)
  }

  function Zeros(n: nat): (s: string)
    ensures |s| == n && AllDigits(s)
  {
    if n == 0 then "" else "0" + Zeros(n - 1)
  }

  /** `{n:0width}`: zeros between the sign and the digits, up to `width` characters. */
  function PaddedText(n: int, width: nat): (s: string)
    ensures s != "" && (n >= 0 ==> AllDigits(s)) && (n < 0 ==> s[0] == '-')
  {
    if n < 0 then
      var digits := NatText(-n);
      "-" + Zeros(if |digits| + 1 < width then width - 1 - |digits| else 0) + digits
    else
      var digits := NatText(n);
      Zeros(if |digits| < width then width - |digits| else 0) + digits
  }

  lemma {:induction false} ValueOfPadded(zeros: nat, s: string)
    requires AllDigits(s)
    ensures AllDigits(Zeros(zeros) + s) && Value(Zeros(zeros) + s) == Value(s)
    decreases |s|
  {
    var t := Zeros(zeros) + s;
    if s == "" {
      assert t == Zeros(zeros);
      ValueOfZeros(zeros);
    } else {
      assert t[..|t| - 1] == Zeros(zeros) + s[..|s| - 1];
      ValueOfPadded(zeros, s[..|s| - 1]);
    }
  }

  lemma {:induction false} ValueOfZeros(n: nat)
    ensures Value(Zeros(n)) == 0
  {
    if n > 0 {
      ZerosEnd(n);
      ValueOfZeros(n - 1);
    }
  }

  lemma {:induction false} ZerosEnd(n: nat)
    requires n > 0
    ensures Zeros(n)[..n - 1] == Zeros(n - 1) && Zeros(n)[n - 1] == '0'
  {
    if n > 1 {
      ZerosEnd(n - 1);
      assert Zeros(n)[..n - 1] == "0" + Zeros(n - 1)[..n - 2];
    }
  }

  /** `str::parse::<i64>()`: an optional sign and at least one digit, in range. */
  function ParseI64(s: string): (r: Option<i64>) {
    var digits := if s != "" && (s[0] == '+' || s[0] == '-') then s[1..] else s;
    if digits == "" || !AllDigits(digits) then None
    else
      var v: int := Value(digits);
      var n := if s[0] == '-' then -v else v;
      if I64_MIN <= n <= I64_MAX then Some(n) else None
  }

  /** Printing an i64 and parsing it gives it back. */
  lemma ParseIntText(n: i64)
    ensures ParseI64(IntText(n)) == Some(n)
  {
    var m: int := n;
    if m < 0 {
      ValueOfNatText(-m);
      assert IntText(n)[1..] == NatText(-m);
    } else {
      ValueOfNatText(m);
      assert IsDigit(IntText(n)[0]);
    }
  }

  /** What is read as an i64: digits, after one sign at most, whose value fits; */
  lemma ParseDigits(digits: string)
    requires digits != "" && AllDigits(digits)
    ensures ParseI64(digits) == ParseI64("+" + digits) == if Value(digits) <= I64_MAX then Some(Value(digits)) else None
    ensures ParseI64("-" + digits) ==
              var n: int := Value(digits);
              if n <= -I64_MIN then Some(-n) else None
  {
    hide Value;
    assert digits[0] in digits;
    assert ("+" + digits)[1..] == digits && ("-" + digits)[1..] == digits;
  }

  /** and nothing else. */
  lemma ParseOnlyDigits(s: string)
    requires ParseI64(s).Some?
    ensures
      var digits := if s[0] == '+' || s[0] == '-' then s[1..] else s;
      s != "" && digits != "" && AllDigits(digits)
  {
  }

  lemma {:induction false} ParsePadded(n: i64, width: nat)
    requires n >= 0
    ensures ParseI64(PaddedText(n, width)) == Some(n)
  {
    hide NatText, Value, Zeros;
    var digits := NatText(n);
    ValueOfNatText(n);
    ValueOfPadded(if |digits| < width then width - |digits| else 0, digits);
    assert IsDigit(PaddedText(n, width)[0]);
  }
}
