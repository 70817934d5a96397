/** How large a signed batch is on the wire (src/client.rs), and how many digests the server's buffer holds. */
module PacketSize {
  import opened Text
  import opened Utf8
  import opened Headers
  import opened Messages
  import opened Accounts
  import opened Engines
  import opened Server
  import opened Clients
  import opened Batching
  import Sha1
  import Fips180

  function HeaderSize(h: Header): nat {
    |Encode(h.0)| + |Encode(h.1)| + 3
  }

  function HeadersSize(headers: seq<Header>): nat {
    if headers == [] then 0 else HeaderSize(headers[0]) + HeadersSize(headers[1..])
  }

  lemma {:induction false} HeadersSizeAppend(a: seq<Header>, b: seq<Header>)
    ensures HeadersSize(a + b) == HeadersSize(a) + HeadersSize(b)
  {
    hide HeaderSize;
    if a == [] {
      assert a + b == b;
    } else {
      assert (a + b)[1..] == a[1..] + b;
      HeadersSizeAppend(a[1..], b);
    }
  }

  lemma HeadersSizeOne(h: Header)
    ensures HeadersSize([h]) == HeaderSize(h)
  {
    hide HeaderSize;
    assert [h][1..] == [];
  }

  lemma AsciiSize(s: string)
    requires IsAscii(s)
    ensures |Encode(s)| == |s|
  {
    EncodeAscii(s);
  }

  lemma HeaderTextSize(h: Header)
    ensures |Encode(HeaderText(h) + "\n")| == HeaderSize(h)
  {
    hide Encode;
    EncodeConcat(h.0 + ": " + h.1, "\n");
    EncodeConcat(h.0 + ": ", h.1);
    EncodeConcat(h.0, ": ");
    AsciiSize(": ");
    AsciiSize("\n");
  }

  lemma {:induction false} LinesSize(headers: seq<Header>)
    ensures |Encode(Terminated(HeaderTexts(headers)))| == HeadersSize(headers)
  {
    hide Encode, HeaderText, HeaderSize, HeadersSize;
    if headers == [] {
      AsciiSize("");
      assert HeadersSize([]) == 0 by {
        NoSize();
      }
    } else {
      var n := |headers| - 1;
      var before, line := HeaderTexts(headers[..n]), HeaderText(headers[n]);
      LinesSize(headers[..n]);
      TerminatedSnoc(before, line);
      EncodeConcat(Terminated(before), line + "\n");
      assert Terminated(before) + line + "\n" == Terminated(before) + (line + "\n");
      HeaderTextSize(headers[n]);
      HeadersSizeAppend(headers[..n], [headers[n]]);
      HeadersSizeOne(headers[n]);
      assert headers == headers[..n] + [headers[n]];
    }
  }

  lemma NoSize()
    ensures HeadersSize([]) == 0
  {
  }

  /** The printed message: its headers with three bytes each besides name and value, and an empty line. */
  lemma RenderSize(headers: seq<Header>)
    ensures |Encode(Render(headers))| == HeadersSize(headers) + 1
  {
    hide Encode, HeadersSize, HeaderTexts, Terminated;
    LinesSize(headers);
    EncodeConcat(Terminated(HeaderTexts(headers)), "\n");
    AsciiSize("\n");
  }

  lemma {:induction false} SetSize(headers: seq<Header>, name: string, value: string)
    ensures HeadersSize(SetIn(headers, name, value)) <= HeadersSize(headers) + HeaderSize((name, value))
  {
    hide Encode, Lower;
    if headers == [] {
      HeadersSizeOne((name, value));
    } else if EqIgnoreAsciiCase(headers[0].0, name) {
      assert SetIn(headers, name, value)[1..] == headers[1..];
    } else {
      SetSize(headers[1..], name, value);
      assert SetIn(headers, name, value)[1..] == SetIn(headers[1..], name, value);
    }
  }

  function Pow10(k: nat): (p: nat)
    ensures p > 0
  {
    if k == 0 then 1 else 10 * Pow10(k - 1)
  }

  lemma {:induction false} NatTextDigits(n: nat, k: nat)
    requires 0 < k && n < Pow10(k)
    ensures |NatText(n)| <= k
  {
    if n >= 10 {
      NatTextDigits(n / 10, k - 1);
    }
  }

  lemma TimeSize(timestamp: i64)
    ensures |Encode(IntText(timestamp))| <= 20
  {
    hide Encode;
    var m: int := timestamp;
    var n: nat := if m < 0 then -m else m;
    assert Pow10(19) == 10_000_000_000_000_000_000 by {
      NineteenDigits();
    }
    NatTextDigits(n, 19);
    var digits, s := NatText(n), IntText(timestamp);
    assert forall k | 0 <= k < |digits| :: IsDigit(digits[k]);
    assert forall k | 0 <= k < |s| :: s[k] as int < 0x80;
    AsciiSize(s);
  }

  lemma NineteenDigits()
    ensures Pow10(19) == 10_000_000_000_000_000_000
  {
    assert Pow10(5) == 100_000 && Pow10(10) == 10_000_000_000 && Pow10(15) == 1_000_000_000_000_000;
  }

  lemma SignatureSize(bytes: seq<byte>)
    requires |bytes| == 20
    ensures |Encode(Sha1.HexText(bytes))| == 40
  {
    hide Encode;
    var s := Sha1.HexText(bytes);
    assert forall k | 0 <= k < |s| :: s[k] in Sha1.TABLE;
    AsciiSize(s);
  }

  lemma NamesSize()
    ensures |Encode("Thread")| == 6 && |Encode("PV")| == 2 && |Encode(PROTO_VERSION)| == 3 && |Encode("User")| == 4
    ensures |Encode("Time")| == 4 && |Encode("Sig")| == 3 && |Encode("Op")| == 2 && |Encode("Op-Spec")| == 7
    ensures |Encode("Op-Digest")| == 9 && |Encode("report")| == 6 && |Encode("whitelist")| == 9
  {
    hide Encode;
    AsciiSize("Thread");
    AsciiSize("PV");
    AsciiSize(PROTO_VERSION);
    AsciiSize("User");
    AsciiSize("Time");
    AsciiSize("Sig");
    AsciiSize("Op");
    AsciiSize("Op-Spec");
    AsciiSize("Op-Digest");
    AsciiSize("report");
    AsciiSize("whitelist");
  }

  /** Signing adds no more than thread, version, user, time and signature. */
  lemma SignedSize(headers: seq<Header>, thread: string, account: Account, timestamp: i64, lower: LowerCase)
    ensures
      HeadersSize(SignedRequest(headers, thread, account, timestamp, lower))
      <= HeadersSize(headers) + |Encode(thread)| + |Encode(account.username)| + 97
  {
    hide Encode, HeadersSize, SetIn, IntText, HashKey, Render, FindHeader, Trim;
    NamesSize();
    TimeSize(timestamp);
    var threaded := if Contains(headers, "Thread") then headers else headers + [("Thread", thread)];
    HeadersSizeAppend(headers, [("Thread", thread)]);
    HeadersSizeOne(("Thread", thread));
    SetSize(threaded, "PV", PROTO_VERSION);
    var initialised := Initialised(headers, thread);
    var one := SetIn(initialised, "User", account.username);
    SetSize(initialised, "User", account.username);
    SetSize(one, "Time", IntText(timestamp));
    var stamped := Stamped(initialised, account, timestamp);
    var sig := SignText(HashKey(account.key, account.username, lower), timestamp, stamped);
    SignTextSize(HashKey(account.key, account.username, lower), timestamp, stamped);
    SetSize(stamped, "Sig", sig);
  }

  lemma SignTextSize(hashedKey: string, timestamp: i64, headers: seq<Header>)
    ensures |Encode(SignText(hashedKey, timestamp, headers))| == 40
  {
    hide Encode, Render, Trim, IntText;
    var first := Fips180.Hash(Encode(Trim(Render(headers))));
    SignatureSize(Fips180.Hash(first + Encode(Suffix(timestamp, hashedKey))));
  }

  lemma {:induction false} DigestsSize(digests: seq<string>, width: nat)
    requires forall k | 0 <= k < |digests| :: |Encode(digests[k])| <= width
    ensures HeadersSize(DigestHeaders(digests)) <= |digests| * (width + 12)
  {
    hide Encode, HeadersSize;
    NoSize();
    NamesSize();
    if digests != [] {
      var n := |digests| - 1;
      DigestsSize(digests[..n], width);
      HeadersSizeAppend(DigestHeaders(digests[..n]), [("Op-Digest", digests[n])]);
      HeadersSizeOne(("Op-Digest", digests[n]));
      assert n * (width + 12) + (width + 12) == (n + 1) * (width + 12);
    }
  }

  lemma NewBatchSize(kind: Kind, spec: seq<(nat, nat)>)
    ensures HeadersSize(NewBatch(kind, spec)) <= 24 + |Encode(SpecText(spec))|
  {
    hide Encode, HeadersSize, SpecText;
    NamesSize();
    HeadersSizeAppend(Request(OpName(kind)), [("Op-Spec", SpecText(spec))]);
    HeadersSizeOne(("Op", OpName(kind)));
    HeadersSizeOne(("Op-Spec", SpecText(spec)));
  }

  /** A signed batch of digests of 40 bytes takes 52 bytes a digest, and little more. */
  lemma BatchSize(kind: Kind, spec: seq<(nat, nat)>, digests: seq<string>, thread: string, account: Account,
                  timestamp: i64, lower: LowerCase)
    requires forall k | 0 <= k < |digests| :: |Encode(digests[k])| <= 40
    ensures
      |Encode(Render(SignedRequest(BatchOf(kind, spec, digests), thread, account, timestamp, lower)))|
      <= 52 * |digests| + |Encode(SpecText(spec))| + |Encode(thread)| + |Encode(account.username)| + 122
  {
    hide Encode, HeadersSize, SignedRequest, NewBatch, DigestHeaders, SpecText, Render;
    var msg := BatchOf(kind, spec, digests);
    RenderSize(SignedRequest(msg, thread, account, timestamp, lower));
    SignedSize(msg, thread, account, timestamp, lower);
    HeadersSizeAppend(NewBatch(kind, spec), DigestHeaders(digests));
    NewBatchSize(kind, spec);
    DigestsSize(digests, 40);
  }

  /** So the server's buffer holds a batch of 150 digests with room for the spec, the thread and the user's name. */
  lemma BatchFits(kind: Kind, spec: seq<(nat, nat)>, digests: seq<string>, thread: string, account: Account,
                  timestamp: i64, lower: LowerCase)
    requires |digests| <= 150 && forall k | 0 <= k < |digests| :: |Encode(digests[k])| <= 40
    requires |Encode(SpecText(spec))| + |Encode(thread)| + |Encode(account.username)| <= 270
    ensures
      var sent := Encode(Render(SignedRequest(BatchOf(kind, spec, digests), thread, account, timestamp, lower)));
      |sent| <= MAX_PACKET_SIZE && Received(sent) == sent
  {
    hide Encode, SignedRequest, BatchOf, Render, SpecText;
    BatchSize(kind, spec, digests, thread, account, timestamp, lower);
  }
}
