/** The Redis protocol: commands as they are written, replies as they are read (src/redis_engine.rs). */
module RedisProtocol {
  import opened Wrappers
  import opened Errors
  import opened Text
  import opened Utf8
  import opened Records
  import opened Engines

  datatype Resp = Simple | Error | Integer | Bulk(bytes: Option<seq<byte>>) | Array(values: Option<seq<Resp>>)

  datatype Failure = EndOfInput | Invalid(message: string)

  type Reply<T> = Result<(T, seq<byte>), Failure>

  // ----- reading, as a function of the bytes that are left -----

  function StripCrLf(b: seq<byte>): seq<byte> {
    var n := |b|;
    if n >= 2 && b[n - 2] == 13 && b[n - 1] == 10 then b[..n - 2]
    else if n >= 1 && b[n - 1] == 10 then b[..n - 1]
    else b
  }

  /** The length of the next line with its newline; the last line may do without one. */
  function LineLength(s: seq<byte>): (n: nat)
    ensures n <= |s| && (s != [] ==> n > 0)
  {
    var i := Find(s, 10);
    if i == |s| then i else i + 1
  }

  function LineOf(s: seq<byte>): (r: Reply<string>)
    ensures r.Ok? ==> |r.value.1| < |s|
  {
    if s == [] then Err(EndOfInput)
    else
      var n := LineLength(s);
      var text := Strict(StripCrLf(s[..n]));
      if text.None? then Err(Invalid("non-UTF8 RESP line")) else Ok((text.value, s[n..]))
  }

  function BulkOf(s: seq<byte>, length: nat): (r: Reply<Resp>)
    ensures r.Ok? ==> |r.value.1| <= |s|
  {
    if |s| < length then Err(EndOfInput)
    else
      var rest := s[length..];
      if |rest| < 2 then Err(EndOfInput)
      else if rest[..2] != [13, 10] then Err(Invalid("missing RESP CRLF"))
      else Ok((Bulk(Some(s[..length])), rest[2..]))
  }

  /** One reply, and the bytes after it. It always takes some bytes. */
  function RespOf(s: seq<byte>): (r: Reply<Resp>)
    ensures r.Ok? ==> |r.value.1| < |s|
    decreases |s|, 0
  {
    if s == [] then Err(EndOfInput)
    else
      var line := LineOf(s[1..]);
      if line.Err? then Err(line.error)
      else
        var (text, rest) := line.value;
        var number := ParseI64(text);
        if s[0] == 43 then Ok((Simple, rest))
        else if s[0] == 45 then Ok((Error, rest))
        else if s[0] != 58 && s[0] != 36 && s[0] != 42 then Err(Invalid("unknown RESP prefix"))
        else if number.None? then Err(Invalid("invalid RESP integer"))
        else if s[0] == 58 then Ok((Integer, rest))
        else if s[0] == 36 then
          if number.value == -1 then Ok((Bulk(None), rest))
          else if number.value < 0 then Err(Invalid("invalid bulk length"))
          else BulkOf(rest, number.value)
        else
          if number.value == -1 then Ok((Array(None), rest))
          else if number.value < 0 then Err(Invalid("invalid array length"))
          else
            var values := ManyOf(rest, number.value);
            if values.Err? then Err(values.error) else Ok((Array(Some(values.value.0)), values.value.1))
  }

  function ManyOf(s: seq<byte>, n: nat): (r: Reply<seq<Resp>>)
    ensures r.Ok? ==> |r.value.1| <= |s| && |r.value.0| == n
    decreases |s|, 1
  {
    if n == 0 then Ok(([], s))
    else
      var first := RespOf(s);
      if first.Err? then Err(first.error)
      else
        var others := ManyOf(first.value.1, n - 1);
        if others.Err? then Err(others.error)
        else Ok(([first.value.0] + others.value.0, others.value.1))
  }

  /** Some replies that were read before, in front of those still to come. */
  function Prefixed(values: seq<Resp>, others: Reply<seq<Resp>>): Reply<seq<Resp>> {
    if others.Err? then Err(others.error) else Ok((values + others.value.0, others.value.1))
  }

  lemma PrefixedStep(values: seq<Resp>, s: seq<byte>, n: nat)
    requires n > 0
    ensures Prefixed(values, ManyOf(s, n))
         == var first := RespOf(s);
            if first.Err? then Err(first.error)
            else Prefixed(values + [first.value.0], ManyOf(first.value.1, n - 1))
  {
    hide RespOf;
    if RespOf(s).Ok? && ManyOf(RespOf(s).value.1, n - 1).Ok? {
      var v, others := RespOf(s).value.0, ManyOf(RespOf(s).value.1, n - 1).value.0;
      assert values + ([v] + others) == values + [v] + others;
    }
  }

  lemma NothingPrefixed(others: Reply<seq<Resp>>)
    ensures Prefixed([], others) == others
  {
    if others.Ok? {
      assert [] + others.value.0 == others.value.0;
    }
  }

  lemma PrefixedNothing(values: seq<Resp>, s: seq<byte>)
    ensures Prefixed(values, ManyOf(s, 0)) == Ok((values, s))
  {
    assert values + [] == values;
  }

  /** A reader that consumes its input step by step. After a failure the input is of no more use. */
  class Reader {
    var input: seq<byte>

    constructor (input: seq<byte>)
      ensures this.input == input
    {
      this.input := input;
    }

    method ReadExact(n: nat) returns (r: Result<seq<byte>, Failure>)
      modifies this
      ensures r.Ok? <==> n <= |old(input)|
      ensures r.Ok? ==> r.value == old(input)[..n] && input == old(input)[n..]
      ensures r.Err? ==> r.error == EndOfInput
    {
      if |input| < n {
        return Err(EndOfInput);
      }
      r := Ok(input[..n]);
      input := input[n..];
    }

    method ReadLine() returns (r: Result<string, Failure>)
      modifies this
      ensures
        var spec := LineOf(old(input));
        && (spec.Ok? <==> r.Ok?)
        && (spec.Ok? ==> spec.value == (r.value, input))
        && (spec.Err? ==> spec.error == r.error)
    {
      if input == [] {
        return Err(EndOfInput);
      }
      var n := LineLength(input);
      var bytes := input[..n];
      input := input[n..];
      if |bytes| >= 2 && bytes[|bytes| - 2] == 13 && bytes[|bytes| - 1] == 10 {
        bytes := bytes[..|bytes| - 2];
      } else if bytes[|bytes| - 1] == 10 {
        bytes := bytes[..|bytes| - 1];
      }
      var text := Strict(bytes);
      if text.None? {
        return Err(Invalid("non-UTF8 RESP line"));
      }
      r := Ok(text.value);
    }

    method ReadBulk(length: nat) returns (r: Result<Resp, Failure>)
      modifies this
      ensures
        var spec := BulkOf(old(input), length);
        && (spec.Ok? <==> r.Ok?)
        && (spec.Ok? ==> spec.value == (r.value, input))
        && (spec.Err? ==> spec.error == r.error)
    {
      var bytes := ReadExact(length);
      if bytes.Err? {
        return Err(bytes.error);
      }
      var crlf := ReadExact(2);
      if crlf.Err? {
        return Err(crlf.error);
      }
      if crlf.value != [13, 10] {
        return Err(Invalid("missing RESP CRLF"));
      }
      r := Ok(Bulk(Some(bytes.value)));
    }

    method ReadResp() returns (r: Result<Resp, Failure>)
      modifies this
      ensures
        var spec := RespOf(old(input));
        && (spec.Ok? <==> r.Ok?)
        && (spec.Ok? ==> spec.value == (r.value, input))
        && (spec.Err? ==> spec.error == r.error)
      decreases |input|, 0
    {
      hide LineOf, BulkOf, ParseI64;
      ghost var start := input;
      var prefix := ReadExact(1);
      if prefix.Err? {
        return Err(prefix.error);
      }
      assert prefix.value[0] == start[0];
      var line := ReadLine();
      if line.Err? {
        return Err(line.error);
      }
      var number := ParseI64(line.value);
      match prefix.value[0]
      case 43 => r := Ok(Simple);
      case 45 => r := Ok(Error);
      case 58 =>
        if number.None? {
          return Err(Invalid("invalid RESP integer"));
        }
        r := Ok(Integer);
      case 36 =>
        if number.None? {
          return Err(Invalid("invalid RESP integer"));
        }
        if number.value == -1 {
          return Ok(Bulk(None));
        }
        if number.value < 0 {
          return Err(Invalid("invalid bulk length"));
        }
        r := ReadBulk(number.value);
      case 42 =>
        if number.None? {
          return Err(Invalid("invalid RESP integer"));
        }
        if number.value == -1 {
          return Ok(Array(None));
        }
        if number.value < 0 {
          return Err(Invalid("invalid array length"));
        }
        var values := ReadMany(number.value);
        if values.Err? {
          return Err(values.error);
        }
        r := Ok(Array(Some(values.value)));
      case _ => r := Err(Invalid("unknown RESP prefix"));
    }

    method ReadMany(n: nat) returns (r: Result<seq<Resp>, Failure>)
      modifies this
      ensures
        var spec := ManyOf(old(input), n);
        && (spec.Ok? <==> r.Ok?)
        && (spec.Ok? ==> spec.value == (r.value, input))
        && (spec.Err? ==> spec.error == r.error)
      decreases |input|, 1
    {
      hide RespOf, ManyOf;
      var values: seq<Resp> := [];
      assert Prefixed(values, ManyOf(input, n)) == ManyOf(input, n) by {
        NothingPrefixed(ManyOf(input, n));
      }
      for i := 0 to n
        invariant |values| == i && |input| <= |old(input)|
        invariant Prefixed(values, ManyOf(input, n - i)) == ManyOf(old(input), n)
      {
        PrefixedStep(values, input, n - i);
        var value := ReadResp();
        if value.Err? {
          return Err(value.error);
        }
        values := values + [value.value];
      }
      PrefixedNothing(values, input);
      r := Ok(values);
    }
  }

  // ----- writing -----

  const CRLF: seq<byte> := [13, 10]

  function Number(prefix: byte, n: nat): seq<byte> {
    [prefix] + Encode(NatText(n)) + CRLF
  }

  function BulkBytes(arg: seq<byte>): seq<byte> {
    Number(36, |arg|) + arg + CRLF
  }

  function BulksBytes(args: seq<seq<byte>>): seq<byte> {
    if args == [] then [] else BulkBytes(args[0]) + BulksBytes(args[1..])
  }

  function Command(args: seq<seq<byte>>): seq<byte> {
    Number(42, |args|) + BulksBytes(args)
  }

  method WriteCommand(args: seq<seq<byte>>) returns (out: seq<byte>)
    ensures out == Command(args)
  {
    hide Number;
    out := Number(42, |args|);
    assert args[0..] == args;
    for i := 0 to |args|
      invariant out + BulksBytes(args[i..]) == Command(args)
    {
      assert args[i..][1..] == args[i + 1..];
      out := out + Number(36, |args[i]|);
      out := out + args[i];
      out := out + CRLF;
    }
    assert args[|args|..] == [];
  }

  // ----- reading undoes writing -----

  lemma LineRead(text: string, rest: seq<byte>)
    requires '\n' !in text
    ensures LineOf(Encode(text) + CRLF + rest) == Ok((text, rest))
  {
    hide Encode, Strict, Find;
    var s := Encode(text) + CRLF + rest;
    NoNewlineByte(text);
    FindAt(Encode(text) + [13], 10, rest);
    assert s == Encode(text) + [13] + [10] + rest;
    var n := |Encode(text)| + 2;
    assert LineLength(s) == n && s[..n] == Encode(text) + CRLF && s[n..] == rest;
    assert StripCrLf(s[..n]) == Encode(text);
    ReadEncoded(text);
  }

  lemma NumberRead(prefix: byte, n: nat, rest: seq<byte>)
    requires n <= I64_MAX
    ensures
      var s := Number(prefix, n) + rest;
      s != [] && s[0] == prefix && LineOf(s[1..]) == Ok((NatText(n), rest)) && ParseI64(NatText(n)) == Some(n)
  {
    hide Encode, LineOf, ParseI64, NatText;
    var s := Number(prefix, n) + rest;
    assert s[1..] == Encode(NatText(n)) + CRLF + rest;
    assert '\n' !in NatText(n);
    LineRead(NatText(n), rest);
    ParseIntText(n);
  }

  lemma BulkRead(arg: seq<byte>, rest: seq<byte>)
    requires |arg| <= I64_MAX
    ensures RespOf(BulkBytes(arg) + rest) == Ok((Bulk(Some(arg)), rest))
  {
    hide Number, LineOf, ParseI64, NatText;
    var after := arg + CRLF + rest;
    assert BulkBytes(arg) + rest == Number(36, |arg|) + after;
    NumberRead(36, |arg|, after);
    assert after[..|arg|] == arg && after[|arg|..] == CRLF + rest;
    assert (CRLF + rest)[..2] == CRLF && (CRLF + rest)[2..] == rest;
  }

  // ----- every kind of reply -----

  /** A reply as a server sends it; arrays may hold arrays. */
  datatype Sent =
    | Status(text: string)
    | Failed(text: string)
    | Count(n: i64)
    | NoText
    | Text(bytes: seq<byte>)
    | NoArray
    | Many(replies: seq<Sent>)

  function Line(prefix: byte, text: string): seq<byte> {
    [prefix] + (Encode(text) + CRLF)
  }

  function SentBytes(r: Sent): seq<byte> {
    match r
    case Status(text) => Line(43, text)
    case Failed(text) => Line(45, text)
    case Count(n) => Line(58, IntText(n))
    case NoText => Line(36, "-1")
    case Text(bytes) => BulkBytes(bytes)
    case NoArray => Line(42, "-1")
    case Many(replies) => Number(42, |replies|) + AllSentBytes(replies)
  }

  function AllSentBytes(replies: seq<Sent>): seq<byte> {
    if replies == [] then [] else SentBytes(replies[0]) + AllSentBytes(replies[1..])
  }

  /** A status is one line; lengths fit an i64. */
  predicate Sendable(r: Sent) {
    match r
    case Status(text) => '\n' !in text
    case Failed(text) => '\n' !in text
    case Text(bytes) => |bytes| <= I64_MAX
    case Many(replies) => |replies| <= I64_MAX && AllSendable(replies)
    case _ => true
  }

  predicate AllSendable(replies: seq<Sent>) {
    replies == [] || (Sendable(replies[0]) && AllSendable(replies[1..]))
  }

  function Meant(r: Sent): Resp {
    match r
    case Status(text) => Simple
    case Failed(text) => Error
    case Count(n) => Integer
    case NoText => Bulk(None)
    case Text(bytes) => Bulk(Some(bytes))
    case NoArray => Array(None)
    case Many(replies) => Array(Some(AllMeant(replies)))
  }

  function AllMeant(replies: seq<Sent>): seq<Resp> {
    if replies == [] then [] else [Meant(replies[0])] + AllMeant(replies[1..])
  }

  lemma PrefixedLine(prefix: byte, text: string, rest: seq<byte>)
    requires '\n' !in text
    ensures
      var s := Line(prefix, text) + rest;
      s != [] && s[0] == prefix && LineOf(s[1..]) == Ok((text, rest))
  {
    hide Encode, LineOf;
    assert (Line(prefix, text) + rest)[1..] == Encode(text) + CRLF + rest;
    LineRead(text, rest);
  }

  lemma NoNewlineInNumber(n: i64)
    ensures '\n' !in IntText(n)
  {
    var m: int := n;
    assert AllDigits(NatText(if m < 0 then -m else m));
  }

  lemma MinusOne()
    ensures IntText(-1) == "-1"
  {
    assert NatText(1) == "1";
  }

  /** Every reply, followed by anything, is read as what was meant, and exactly what follows is left. */
  lemma {:induction false} SentRead(r: Sent, rest: seq<byte>)
    requires Sendable(r)
    ensures RespOf(SentBytes(r) + rest) == Ok((Meant(r), rest))
    decreases r, 0
  {
    hide Line, Number, LineOf, ParseI64, IntText, NatText, BulkBytes, ManyOf, AllSentBytes, AllMeant;
    match r {
      case Status(text) => PrefixedLine(43, text, rest);
      case Failed(text) => PrefixedLine(45, text, rest);
      case Count(n) =>
        NoNewlineInNumber(n);
        PrefixedLine(58, IntText(n), rest);
        ParseIntText(n);
      case NoText => NothingRead(36, rest);
      case Text(bytes) => BulkRead(bytes, rest);
      case NoArray => NothingRead(42, rest);
      case Many(replies) =>
        var after := AllSentBytes(replies) + rest;
        assert SentBytes(r) + rest == Number(42, |replies|) + after;
        NumberRead(42, |replies|, after);
        AllSentRead(replies, rest);
    }
  }

  lemma {:induction false} AllSentRead(replies: seq<Sent>, rest: seq<byte>)
    requires AllSendable(replies)
    ensures ManyOf(AllSentBytes(replies) + rest, |replies|) == Ok((AllMeant(replies), rest))
    decreases replies, 1
  {
    hide RespOf, SentBytes, Sendable, Meant;
    if replies == [] {
      assert AllSentBytes(replies) + rest == rest;
    } else {
      var others := AllSentBytes(replies[1..]) + rest;
      assert AllSentBytes(replies) + rest == SentBytes(replies[0]) + others;
      SentRead(replies[0], others);
      AllSentRead(replies[1..], rest);
    }
  }

  lemma NothingRead(prefix: byte, rest: seq<byte>)
    requires prefix == 36 || prefix == 42
    ensures RespOf(Line(prefix, "-1") + rest) == Ok((if prefix == 36 then Bulk(None) else Array(None), rest))
  {
    hide Line, LineOf, ParseI64, IntText;
    MinusOne();
    ParseIntText(-1);
    NoNewlineInNumber(-1);
    PrefixedLine(prefix, "-1", rest);
  }

  /** A line that gives no number, a length below -1, or an unknown prefix is an error of its own. */
  lemma BadLine(prefix: byte, text: string, rest: seq<byte>)
    requires '\n' !in text && prefix != 43 && prefix != 45
    ensures
      var r, n := RespOf(Line(prefix, text) + rest), ParseI64(text);
      && (prefix !in {58, 36, 42} ==> r == Err(Invalid("unknown RESP prefix")))
      && (prefix in {58, 36, 42} && n.None? ==> r == Err(Invalid("invalid RESP integer")))
      && (prefix == 36 && n.Some? && n.value < -1 ==> r == Err(Invalid("invalid bulk length")))
      && (prefix == 42 && n.Some? && n.value < -1 ==> r == Err(Invalid("invalid array length")))
  {
    hide Line, LineOf, ParseI64, BulkOf, ManyOf;
    PrefixedLine(prefix, text, rest);
  }

  /** A bulk text that is not followed by CRLF is an error, and so is input that ends too early. */
  lemma BadBulk(arg: seq<byte>, rest: seq<byte>)
    requires |arg| <= I64_MAX
    ensures RespOf(Number(36, |arg|) + arg + rest)
         == if |rest| < 2 then Err(EndOfInput)
            else if rest[..2] != CRLF then Err(Invalid("missing RESP CRLF"))
            else Ok((Bulk(Some(arg)), rest[2..]))
  {
    hide Number, LineOf, ParseI64, NatText;
    var after := arg + rest;
    assert Number(36, |arg|) + arg + rest == Number(36, |arg|) + after;
    NumberRead(36, |arg|, after);
    assert after[..|arg|] == arg && after[|arg|..] == rest;
  }

  lemma EndedEarly(arg: seq<byte>, n: nat)
    requires |arg| < n <= I64_MAX
    ensures RespOf(Number(36, n) + arg) == Err(EndOfInput)
  {
    hide Number, LineOf, ParseI64, NatText, ManyOf;
    NumberRead(36, n, arg);
  }

  lemma NothingToRead(prefix: byte)
    ensures RespOf([]) == Err(EndOfInput) && RespOf([prefix]) == Err(EndOfInput)
  {
    hide ParseI64, BulkOf, ManyOf;
    assert [prefix][1..] == [];
  }

  /** A line may end with a newline alone, */
  lemma BareLine(text: string, rest: seq<byte>)
    requires '\n' !in text && StripCr(text) == text
    ensures LineOf(Encode(text) + [10] + rest) == Ok((text, rest))
  {
    hide Encode, Strict, Find, StripCrLf;
    NoNewlineByte(text);
    ReadEncoded(text);
    var b := Encode(text);
    var s := b + [10] + rest;
    FindAt(b, 10, rest);
    assert LineLength(s) == |b| + 1 && s[..|b| + 1] == b + [10] && s[|b| + 1..] == rest;
    Stripped(text);
  }

  lemma Stripped(text: string)
    requires '\n' !in text && StripCr(text) == text
    ensures StripCrLf(Encode(text) + [10]) == Encode(text) == StripCrLf(Encode(text))
  {
    hide Encode, StripCr;
    NoNewlineByte(text);
    NoReturnAtEnd(text);
    var b := Encode(text);
    assert (b + [10])[..|b|] == b;
  }

  /** or with the input. */
  lemma LastLine(text: string)
    requires '\n' !in text && StripCr(text) == text && text != ""
    ensures LineOf(Encode(text)) == Ok((text, []))
  {
    hide Encode, Strict, Find, StripCrLf;
    NoNewlineByte(text);
    ReadEncoded(text);
    var b := Encode(text);
    FindNone(b, 10);
    Stripped(text);
    assert b[..|b|] == b && b[|b|..] == [];
  }

  lemma {:induction false} NoReturnAtEnd(text: string)
    requires StripCr(text) == text
    ensures var b := Encode(text); b != [] ==> b[|b| - 1] != 13
  {
    if text != "" {
      var n := |text| - 1;
      EncodeConcat(text[..n], [text[n]]);
      assert text == text[..n] + [text[n]];
      assert Encode([text[n]]) == EncodeChar(text[n]) + Encode([text[n]][1..]);
      assert Encode([text[n]]) == EncodeChar(text[n]);
    }
  }

  function Bulks(args: seq<seq<byte>>): (values: seq<Resp>)
    ensures |values| == |args| && forall k | 0 <= k < |args| :: values[k] == Bulk(Some(args[k]))
  {
    seq(|args|, k requires 0 <= k < |args| => Bulk(Some(args[k])))
  }

  predicate Lengths(args: seq<seq<byte>>) {
    forall k | 0 <= k < |args| :: |args[k]| <= I64_MAX
  }

  lemma {:induction false} ManyRead(args: seq<seq<byte>>, rest: seq<byte>)
    requires Lengths(args)
    ensures ManyOf(BulksBytes(args) + rest, |args|) == Ok((Bulks(args), rest))
  {
    hide RespOf, BulkBytes;
    if args == [] {
      assert BulksBytes(args) + rest == rest && Bulks(args) == [];
    } else {
      var others := BulksBytes(args[1..]) + rest;
      assert BulksBytes(args) + rest == BulkBytes(args[0]) + others;
      BulkRead(args[0], others);
      ManyRead(args[1..], rest);
      assert Bulks(args) == [Bulk(Some(args[0]))] + Bulks(args[1..]);
    }
  }

  /** Reading a written command, whatever follows it, gives exactly its byte strings and leaves exactly what follows. A
      vector's length always fits an i64. */
  lemma CommandRead(args: seq<seq<byte>>, rest: seq<byte>)
    requires |args| <= I64_MAX && Lengths(args)
    ensures RespOf(Command(args) + rest) == Ok((Array(Some(Bulks(args))), rest))
  {
    hide Number, LineOf, ParseI64, NatText, ManyOf;
    var after := BulksBytes(args) + rest;
    assert Command(args) + rest == Number(42, |args|) + after;
    NumberRead(42, |args|, after);
    ManyRead(args, rest);
  }

  /** So no command is a prefix of another one's bytes, and none can be mistaken for another. */
  lemma CommandInjective(a: seq<seq<byte>>, b: seq<seq<byte>>, rest: seq<byte>, other: seq<byte>)
    requires |a| <= I64_MAX && Lengths(a) && |b| <= I64_MAX && Lengths(b)
    requires Command(a) + rest == Command(b) + other
    ensures a == b && rest == other
  {
    hide RespOf, Command;
    CommandRead(a, rest);
    CommandRead(b, other);
    assert Bulks(a) == Bulks(b);
    assert forall k | 0 <= k < |a| :: a[k] == Bulks(a)[k].bytes.value && b[k] == Bulks(b)[k].bytes.value;
  }

  // ----- the fields of a hash -----

  function BulkString(r: Resp): Result<Option<string>, PyzorError> {
    if !r.Bulk? then Err(UNAVAILABLE)
    else if r.bytes.None? then Ok(None)
    else
      var text := Strict(r.bytes.value);
      if text.None? then Err(UNAVAILABLE) else Ok(text)
  }

  /** The text of a bulk reply that is there and valid. */
  function TextOf(r: Resp): Option<string> {
    var text := BulkString(r);
    if text.Ok? then text.value else None
  }

  /** Keys and values in turn; an odd one out, or anything that is no text, is an error. */
  function FieldsOf(values: seq<Resp>): Option<map<string, string>>
    requires |values| % 2 == 0
  {
    if values == [] then Some(map[])
    else
      var n := |values|;
      var before := FieldsOf(values[..n - 2]);
      var key, value := TextOf(values[n - 2]), TextOf(values[n - 1]);
      if before.None? || key.None? || value.None? then None else Some(before.value[key.value := value.value])
  }

  function HgetallOf(r: Resp): Result<map<string, string>, PyzorError> {
    if !r.Array? then Err(UNAVAILABLE)
    else if r.values.None? then Ok(map[])
    else if |r.values.value| % 2 != 0 then Err(UNAVAILABLE)
    else
      var fields := FieldsOf(r.values.value);
      if fields.None? then Err(UNAVAILABLE) else Ok(fields.value)
  }

  /** What is no reply to HGETALL: anything but an array, an odd number of values, a value that is no text. */
  lemma BadHgetall(r: Resp, k: nat)
    requires
      || !r.Array?
      || (r.values.Some? && |r.values.value| % 2 == 1)
      || (r.values.Some? && k < |r.values.value| && NoText(r.values.value[k]))
    ensures HgetallOf(r) == Err(UNAVAILABLE)
  {
    hide FieldsOf, NoText;
    if r.Array? && r.values.Some? && |r.values.value| % 2 == 0 {
      BadField(r.values.value, k);
    }
  }

  predicate NoText(r: Resp) {
    r.Bulk? ==> r.bytes.None? || Strict(r.bytes.value).None?
  }

  lemma {:induction false} BadField(values: seq<Resp>, k: nat)
    requires |values| % 2 == 0 && k < |values| && NoText(values[k])
    ensures FieldsOf(values).None?
  {
    hide Strict;
    var n := |values|;
    if k < n - 2 {
      BadField(values[..n - 2], k);
    }
  }

  lemma {:induction false} FieldsStuck(values: seq<Resp>, i: nat)
    requires |values| % 2 == 0 && i % 2 == 0 && i <= |values|
    requires FieldsOf(values[..i]).None?
    ensures FieldsOf(values).None?
    decreases |values|
  {
    hide TextOf;
    if i < |values| {
      assert values[..|values| - 2][..i] == values[..i];
      FieldsStuck(values[..|values| - 2], i);
    } else {
      assert values[..i] == values;
    }
  }

  lemma FieldsStep(values: seq<Resp>, i: nat)
    requires i % 2 == 0 && i + 2 <= |values|
    ensures
      var before := FieldsOf(values[..i]);
      var key, value := TextOf(values[i]), TextOf(values[i + 1]);
      FieldsOf(values[..i + 2])
      == if before.None? || key.None? || value.None? then None else Some(before.value[key.value := value.value])
  {
    assert values[..i + 2][..i] == values[..i];
  }

  method DecodeHgetall(response: Resp) returns (r: Result<map<string, string>, PyzorError>)
    ensures r == HgetallOf(response)
  {
    hide FieldsOf, BulkString;
    if !response.Array? {
      return Err(UNAVAILABLE);
    }
    if response.values.None? {
      return Ok(map[]);
    }
    var values := response.values.value;
    if |values| % 2 != 0 {
      return Err(UNAVAILABLE);
    }
    var fields: map<string, string> := map[];
    var i := 0;
    NoFields(values[..0]);
    while i < |values|
      invariant i <= |values| && i % 2 == 0 && FieldsOf(values[..i]) == Some(fields)
    {
      FieldsStep(values, i);
      var key := BulkString(values[i]);
      if key.Err? || key.value.None? {
        FieldsStuck(values, i + 2);
        return Err(UNAVAILABLE);
      }
      var value := BulkString(values[i + 1]);
      if value.Err? || value.value.None? {
        FieldsStuck(values, i + 2);
        return Err(UNAVAILABLE);
      }
      fields := fields[key.value.value := value.value.value];
      i := i + 2;
    }
    assert values[..i] == values;
    r := Ok(fields);
  }

  lemma NoFields(values: seq<Resp>)
    requires values == []
    ensures FieldsOf(values) == Some(map[])
  {
  }

  function Flat(fields: seq<Field>): (args: seq<seq<byte>>)
    ensures |args| == 2 * |fields|
  {
    if fields == [] then []
    else
      var n := |fields| - 1;
      Flat(fields[..n]) + [Encode(fields[n].0), Encode(fields[n].1)]
  }

  lemma {:induction false} FlatFields(fields: seq<Field>)
    ensures FieldsOf(Bulks(Flat(fields))) == Some(MapOf(fields))
  {
    hide Encode, Strict;
    if fields != [] {
      var n := |fields| - 1;
      FlatFields(fields[..n]);
      ReadEncoded(fields[n].0);
      ReadEncoded(fields[n].1);
      var values := Bulks(Flat(fields));
      assert values[..2 * n] == Bulks(Flat(fields[..n]));
    }
  }

  /** The reply to HGETALL carries the fields: reading and decoding it gives back the map they make. */
  lemma HgetallRead(fields: seq<Field>, rest: seq<byte>)
    requires |Flat(fields)| <= I64_MAX && Lengths(Flat(fields))
    ensures
      var reply := RespOf(Command(Flat(fields)) + rest);
      reply.Ok? && reply.value.1 == rest && HgetallOf(reply.value.0) == Ok(MapOf(fields))
  {
    hide RespOf, Command, Flat, MapOf, FieldsOf, Lengths;
    CommandRead(Flat(fields), rest);
    FlatFields(fields);
  }

  lemma {:induction false} NatTextShort(n: nat)
    ensures |NatText(n)| <= n / 10 + 1
  {
    if n >= 10 {
      NatTextShort(n / 10);
    }
  }

  lemma IntTextShort(n: i64)
    ensures |Encode(IntText(n))| <= I64_MAX
  {
    hide Encode;
    var m: int := n;
    var digits := NatText(if m < 0 then -m else m);
    NatTextShort(if m < 0 then -m else m);
    var s := IntText(n);
    assert forall k | 0 <= k < |digits| :: IsDigit(digits[k]);
    assert forall k | 0 <= k < |s| :: s[k] as int < 0x80;
    EncodeAscii(s);
  }

  lemma NamesShort()
    ensures forall name | name in {"r_count", "r_entered", "r_updated", "wl_count", "wl_entered", "wl_updated"} ::
              |Encode(name)| <= I64_MAX
  {
    hide Encode;
    EncodeAscii("r_count");
    EncodeAscii("r_entered");
    EncodeAscii("r_updated");
    EncodeAscii("wl_count");
    EncodeAscii("wl_entered");
    EncodeAscii("wl_updated");
  }

  predicate ShortField(f: Field) {
    |Encode(f.0)| <= I64_MAX && |Encode(f.1)| <= I64_MAX
  }

  lemma {:induction false} ShortFields(fields: seq<Field>)
    requires forall k | 0 <= k < |fields| :: ShortField(fields[k])
    ensures Lengths(Flat(fields))
  {
    hide Encode;
    if fields != [] {
      ShortFields(fields[..|fields| - 1]);
      assert ShortField(fields[|fields| - 1]);
    }
  }

  lemma RecordShort(r: Record)
    ensures Lengths(Flat(RedisV1EncodeRecord(r)))
  {
    hide Encode, IntText, Flat, Lengths;
    NamesShort();
    IntTextShort(r.rCount);
    IntTextShort(r.wlCount);
    IntTextShort(r.rEntered.GetOr(0));
    IntTextShort(r.rUpdated.GetOr(0));
    IntTextShort(r.wlEntered.GetOr(0));
    IntTextShort(r.wlUpdated.GetOr(0));
    ShortFields(RedisV1EncodeRecord(r));
  }

  /** What `set` writes, `get` reads: a record stored as fields comes back over the wire exactly when no time of it is
      the epoch itself. */
  lemma SetThenGet(r: Record, rest: seq<byte>)
    ensures
      var reply := RespOf(Command(Flat(RedisV1EncodeRecord(r))) + rest);
      && reply.Ok? && HgetallOf(reply.value.0).Ok?
      && (RecordOfFields(HgetallOf(reply.value.0).value) == r
          <==> Some(0) !in {r.rEntered, r.rUpdated, r.wlEntered, r.wlUpdated})
  {
    hide RespOf, Command, Flat, MapOf, FieldsOf, Lengths, RecordOfFields, HgetallOf, IntText;
    RecordShort(r);
    HgetallRead(RedisV1EncodeRecord(r), rest);
    RedisV1DecodeEncodedRecord(r);
  }
}
