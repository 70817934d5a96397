/** The errors of the protocol (src/error.rs). */
module Errors {
  datatype PyzorError =
    | Comm(message: string)
    | Protocol(message: string)
    | IncompleteMessage(message: string)
    | UnsupportedVersion(message: string)
    | Signature(message: string)
    | Authorization(message: string)
}

/** Signing requests and verifying signatures (src/account.rs). */
module Accounts {
  import opened Wrappers
  import opened Errors
  import opened Text
  import opened Utf8
  import opened Headers
  import opened Messages
  import opened Sha1
  import Fips180

  /** `str::to_lowercase`, which knows all of Unicode. */
  type LowerCase = string -> string

  datatype Account = Account(username: string, salt: Option<string>, key: string)

  const ANONYMOUS_USER: string := "anonymous"
  const MAX_TIMESTAMP_DIFFERENCE: int := 300

  function HashKey(key: string, user: string, lower: LowerCase): string {
    HexText(Fips180.Hash(Encode(user + ":" + lower(key))))
  }

  /** What is hashed behind the hash of the text. */
  function Suffix(timestamp: i64, hashedKey: string): string {
    ":" + IntText(timestamp) + ":" + hashedKey
  }

  function SignText(hashedKey: string, timestamp: i64, headers: seq<Header>): string {
    var first := Fips180.Hash(Encode(Trim(Render(headers))));
    HexText(Fips180.Hash(first + Encode(Suffix(timestamp, hashedKey))))
  }

  method HexDigest(bytes: seq<byte>) returns (text: string)
    ensures text == HexText(Fips180.Hash(bytes))
  {
    var digest := Digest(bytes);
    text := Hex(digest);
  }

  method SignMsg(hashedKey: string, timestamp: i64, msg: Message) returns (sig: string)
    ensures sig == SignText(hashedKey, timestamp, msg.headers)
  {
    hide Fips180.Hash;
    var text := msg.AsString();
    var first := Digest(Encode(Trim(text)));
    sig := HexDigest(first + Encode(":" + IntText(timestamp) + ":" + hashedKey));
  }

  /** The headers that are signed: all those of the message, with its user and time. */
  function Stamped(headers: seq<Header>, account: Account, timestamp: i64): seq<Header> {
    SetIn(SetIn(headers, "User", account.username), "Time", IntText(timestamp))
  }

  function Signed(headers: seq<Header>, account: Account, timestamp: i64, lower: LowerCase): seq<Header> {
    var stamped := Stamped(headers, account, timestamp);
    SetIn(stamped, "Sig", SignText(HashKey(account.key, account.username, lower), timestamp, stamped))
  }

  method SignForAccount(msg: Message, account: Account, timestamp: i64, lower: LowerCase)
    modifies msg
    ensures msg.headers == Signed(old(msg.headers), account, timestamp, lower)
  {
    hide SignText, SetIn;
    msg.SetHeader("User", account.username);
    msg.SetHeader("Time", IntText(timestamp));
    var hashedKey := HexDigest(Encode(account.username + ":" + lower(account.key)));
    var sig := SignMsg(hashedKey, timestamp, msg);
    msg.SetHeader("Sig", sig);
  }

  // ----- verifying -----

  /** `(now - timestamp).abs()` with its two wrap-arounds. */
  function TimeGap(now: i64, timestamp: i64): i64 {
    var d: int := Wrap64(now - timestamp);
    Wrap64(if d < 0 then -d else d)
  }

  predicate Fresh(now: i64, timestamp: i64) {
    TimeGap(now, timestamp) <= MAX_TIMESTAMP_DIFFERENCE
  }

  function Verify(headers: seq<Header>, userKey: string, now: i64, lower: LowerCase): Result<(), PyzorError> {
    var time := FindHeader(headers, "Time");
    if time.None? then Err(Signature("Missing timestamp."))
    else if ParseI64(time.value).None? then Err(Signature("Invalid timestamp."))
    else if !Contains(headers, "User") then Err(Signature("Missing user."))
    else if !Contains(headers, "Sig") then Err(Signature("Missing signature."))
    else
      var timestamp := ParseI64(time.value).value;
      if !Fresh(now, timestamp) then Err(Signature("Timestamp not within allowed range."))
      else
        var hashedKey := HashKey(userKey, FindHeader(headers, "User").value, lower);
        if SignText(hashedKey, timestamp, RemoveIn(headers, "Sig")) == FindHeader(headers, "Sig").value then Ok(())
        else Err(Signature("Invalid signature."))
  }

  method VerifySignature(msg: Message, userKey: string, now: i64, lower: LowerCase)
    returns (r: Result<(), PyzorError>)
    ensures r == Verify(msg.headers, userKey, now, lower)
  {
    hide SignText, RemoveIn, TimeGap, ParseI64;
    var time := FindHeader(msg.headers, "Time");
    if time.None? {
      return Err(Signature("Missing timestamp."));
    }
    var timestamp := ParseI64(time.value);
    if timestamp.None? {
      return Err(Signature("Invalid timestamp."));
    }
    var user := FindHeader(msg.headers, "User");
    if user.None? {
      return Err(Signature("Missing user."));
    }
    var provided := FindHeader(msg.headers, "Sig");
    if provided.None? {
      return Err(Signature("Missing signature."));
    }
    if TimeGap(now, timestamp.value) > MAX_TIMESTAMP_DIFFERENCE {
      return Err(Signature("Timestamp not within allowed range."));
    }
    var hashedUserKey := HexDigest(Encode(user.value + ":" + lower(userKey)));
    var unsigned := new Message();
    unsigned.headers := msg.headers;
    unsigned.RemoveAll("Sig");
    var correct := SignMsg(hashedUserKey, timestamp.value, unsigned);
    if correct != provided.value {
      return Err(Signature("Invalid signature."));
    }
    r := Ok(());
  }

  /** The window as the wrapped arithmetic draws it. Between two readings of the clock, neither negative,
      it is exactly 300 seconds to both sides. */
  lemma FreshExactly(now: i64, timestamp: i64)
    ensures
      var d: int := now - timestamp;
      Fresh(now, timestamp) <==>
        || -300 <= d <= 300
        || d == -I64_MIN || d == I64_MIN
        || d >= 0xFFFF_FFFF_FFFF_FED4 || d <= -0xFFFF_FFFF_FFFF_FED4
    ensures now >= 0 && timestamp >= 0 ==> (Fresh(now, timestamp) <==> -300 <= now - timestamp <= 300)
  {
    var d: int := now - timestamp;
    WrapStep(d);
    var w: int := Wrap64(d);
    WrapStep(if w < 0 then -w else w);
  }

  lemma WrapStep(x: int)
    requires -0x1_0000_0000_0000_0000 < x < 0x1_0000_0000_0000_0000
    ensures Wrap64(x) == if x < I64_MIN then x + 0x1_0000_0000_0000_0000
                         else if x > I64_MAX then x - 0x1_0000_0000_0000_0000 else x
  {
  }

  // ----- a signed request survives the wire -----

  lemma {:induction false} WellFormedAfterSet(headers: seq<Header>, name: string, value: string)
    requires AllWellFormed(headers) && GoodName(name) && GoodValue(value)
    ensures AllWellFormed(SetIn(headers, name, value))
  {
    hide GoodName, GoodValue, Lower;
    if headers != [] {
      assert WellFormed(headers[0]);
      if !EqIgnoreAsciiCase(headers[0].0, name) {
        WellFormedAfterSet(headers[1..], name, value);
      }
    }
  }

  lemma {:induction false} NoSpaceText(s: string)
    requires forall k | 0 <= k < |s| :: '!' <= s[k] <= '~'
    ensures GoodValue(s) && (':' !in s ==> GoodName(s))
  {
    assert PlainLine(s);
    NothingToTrim(s);
  }

  lemma NothingToTrim(s: string)
    requires forall k | 0 <= k < |s| :: '!' <= s[k] <= '~'
    ensures TrimStart(s) == s && Trim(s) == s
  {
    assert s != "" ==> !IsWhitespace(s[0]) && !IsWhitespace(s[|s| - 1]);
  }

  lemma HexIsPlain(b: seq<byte>)
    ensures GoodValue(HexText(b))
  {
    var s := HexText(b);
    assert forall k | 0 <= k < |s| :: s[k] in TABLE;
    NoSpaceText(s);
  }

  lemma IntTextPlain(n: int)
    ensures GoodValue(IntText(n))
  {
    var digits := NatText(if n < 0 then -n else n);
    var s := IntText(n);
    assert forall k | 0 <= k < |digits| :: IsDigit(digits[k]);
    assert forall k | 0 <= k < |s| :: '!' <= s[k] <= '~';
    NoSpaceText(s);
  }

  lemma StampNames()
    ensures !EqIgnoreAsciiCase("User", "Time") && !EqIgnoreAsciiCase("Sig", "Time") && !EqIgnoreAsciiCase("Sig", "User")
    ensures !EqIgnoreAsciiCase("User", "Sig") && !EqIgnoreAsciiCase("Time", "Sig") && !EqIgnoreAsciiCase("Time", "User")
  {
    assert Lower("User")[0] == 'u' && Lower("Time")[0] == 't';
  }

  lemma SignedIsWellFormed(headers: seq<Header>, account: Account, timestamp: i64, lower: LowerCase)
    requires AllWellFormed(headers) && GoodValue(account.username)
    ensures AllWellFormed(Signed(headers, account, timestamp, lower))
  {
    hide SetIn, AllWellFormed, GoodName, GoodValue, Trim, HexText, IntText, Fips180.Hash, Render, HashKey, Encode;
    SignNames();
    IntTextPlain(timestamp);
    var one := SetIn(headers, "User", account.username);
    WellFormedAfterSet(headers, "User", account.username);
    WellFormedAfterSet(one, "Time", IntText(timestamp));
    var stamped := Stamped(headers, account, timestamp);
    var key := HashKey(account.key, account.username, lower);
    HexIsPlain(Fips180.Hash(Fips180.Hash(Encode(Trim(Render(stamped))))
                            + Encode(Suffix(timestamp, key))));
    WellFormedAfterSet(stamped, "Sig", SignText(key, timestamp, stamped));
  }

  lemma SignNames()
    ensures GoodName("User") && GoodName("Time") && GoodName("Sig")
  {
    hide GoodName, GoodValue;
    NoSpaceText("User");
    NoSpaceText("Time");
    NoSpaceText("Sig");
  }

  /** What signing adds, and what the verifier finds again. */
  lemma SignedFields(headers: seq<Header>, account: Account, timestamp: i64, lower: LowerCase)
    requires !Contains(headers, "Sig")
    ensures
      var s := Signed(headers, account, timestamp, lower);
      && FindHeader(s, "User") == Some(account.username)
      && FindHeader(s, "Time") == Some(IntText(timestamp))
      && FindHeader(s, "Sig")
         == Some(SignText(HashKey(account.key, account.username, lower), timestamp, Stamped(headers, account, timestamp)))
      && RemoveIn(s, "Sig") == Stamped(headers, account, timestamp)
  {
    hide SetIn, FindHeader, RemoveIn, HashKey, SignText, IntText, Lower;
    StampNames();
    var one := SetIn(headers, "User", account.username);
    var stamped := Stamped(headers, account, timestamp);
    var sig := SignText(HashKey(account.key, account.username, lower), timestamp, stamped);
    GetAfterSet(headers, "User", account.username, "Sig");
    GetAfterSet(headers, "User", account.username, "User");
    GetAfterSet(one, "Time", IntText(timestamp), "Sig");
    GetAfterSet(one, "Time", IntText(timestamp), "User");
    GetAfterSet(one, "Time", IntText(timestamp), "Time");
    GetAfterSet(stamped, "Sig", sig, "User");
    GetAfterSet(stamped, "Sig", sig, "Time");
    GetAfterSet(stamped, "Sig", sig, "Sig");
    RemoveUndoesSet(stamped, "Sig", sig);
  }

  /** A message that was not signed yet verifies with the key it is signed with, exactly while fresh. */
  lemma SignedVerifies(headers: seq<Header>, account: Account, timestamp: i64, now: i64, lower: LowerCase)
    requires !Contains(headers, "Sig")
    ensures Verify(Signed(headers, account, timestamp, lower), account.key, now, lower)
         == if Fresh(now, timestamp) then Ok(()) else Err(Signature("Timestamp not within allowed range."))
  {
    hide Signed, FindHeader, RemoveIn, SignText, IntText, ParseI64, TimeGap, Stamped;
    SignedFields(headers, account, timestamp, lower);
    ParseIntText(timestamp);
  }

  // ----- what is refused -----

  /** Each refusal for its own reason, the first of them in this order. */
  lemma RefusalReasons(headers: seq<Header>, userKey: string, now: i64, lower: LowerCase)
    ensures
      var r := Verify(headers, userKey, now, lower);
      var time := FindHeader(headers, "Time");
      && (r == Err(Signature("Missing timestamp.")) <==> time.None?)
      && (r == Err(Signature("Invalid timestamp.")) <==> time.Some? && ParseI64(time.value).None?)
      && (time.Some? && ParseI64(time.value).Some? ==>
            var timestamp := ParseI64(time.value).value;
            && (r == Err(Signature("Missing user.")) <==> !Contains(headers, "User"))
            && (r == Err(Signature("Missing signature.")) <==> Contains(headers, "User") && !Contains(headers, "Sig"))
            && (Contains(headers, "User") && Contains(headers, "Sig") ==>
                  && (r == Err(Signature("Timestamp not within allowed range.")) <==> !Fresh(now, timestamp))
                  && (r.Ok? || r == Err(Signature("Invalid signature.")) <==> Fresh(now, timestamp))))
  {
    hide SignText, HashKey, RemoveIn, FindHeader, ParseI64, TimeGap;
    DistinctReasons();
  }

  lemma DistinctReasons()
    ensures |"Missing timestamp."| == 18 && |"Invalid timestamp."| == 18 && |"Missing user."| == 13
    ensures |"Missing signature."| == 18 && |"Invalid signature."| == 18 && |"Timestamp not within allowed range."| == 35
    ensures "Missing timestamp." != "Invalid timestamp." && "Missing signature." != "Invalid signature."
    ensures "Missing timestamp." != "Missing signature." && "Missing timestamp." != "Invalid signature."
    ensures "Invalid timestamp." != "Missing signature." && "Invalid timestamp." != "Invalid signature."
  {
    assert "Missing timestamp."[0] == 'M' && "Invalid timestamp."[0] == 'I';
    assert "Missing signature."[0] == 'M' && "Invalid signature."[0] == 'I';
    assert "Missing timestamp."[8] == 't' && "Missing signature."[8] == 's';
    assert "Invalid timestamp."[8] == 't' && "Invalid signature."[8] == 's';
  }

  /** Whatever stands in place of the signature of a signed message is refused, unless it is that signature. */
  lemma OtherSignature(headers: seq<Header>, account: Account, timestamp: i64, other: string, now: i64, lower: LowerCase)
    requires !Contains(headers, "Sig")
    ensures
      var signed := Signed(headers, account, timestamp, lower);
      Verify(SetIn(signed, "Sig", other), account.key, now, lower)
      == if !Fresh(now, timestamp) then Err(Signature("Timestamp not within allowed range."))
         else if FindHeader(signed, "Sig") == Some(other) then Ok(())
         else Err(Signature("Invalid signature."))
  {
    hide Signed, FindHeader, RemoveIn, SetIn, SignText, IntText, ParseI64, TimeGap, Stamped, HashKey, Lower;
    SignedFields(headers, account, timestamp, lower);
    ParseIntText(timestamp);
    var signed := Signed(headers, account, timestamp, lower);
    StampNames();
    GetAfterSet(signed, "Sig", other, "Sig");
    GetAfterSet(signed, "Sig", other, "User");
    GetAfterSet(signed, "Sig", other, "Time");
    RemoveAfterSet(signed, "Sig", other);
  }

  /** What the signature of a message is computed from. */
  datatype Signable = Signable(text: string, timestamp: i64, owner: string)

  function SignableOf(headers: seq<Header>, userKey: string, lower: LowerCase): Option<Signable> {
    var time, user := FindHeader(headers, "Time"), FindHeader(headers, "User");
    if time.None? || user.None? || ParseI64(time.value).None? then None
    else Some(Signable(Trim(Render(RemoveIn(headers, "Sig"))), ParseI64(time.value).value,
                       user.value + ":" + lower(userKey)))
  }

  /** Two accepted messages with the same signature agree in their text without it, in their time, and in user and
      lowered key, or show two inputs with one hash. */
  lemma AcceptedAlike(a: seq<Header>, keyA: string, nowA: i64, b: seq<Header>, keyB: string, nowB: i64, lower: LowerCase)
    requires Verify(a, keyA, nowA, lower).Ok? && Verify(b, keyB, nowB, lower).Ok?
    requires FindHeader(a, "Sig") == FindHeader(b, "Sig")
    ensures SignableOf(a, keyA, lower).Some?
    ensures SignableOf(a, keyA, lower) == SignableOf(b, keyB, lower) || Collision()
  {
    hide SignText, HashKey, RemoveIn, FindHeader, ParseI64, TimeGap, Collision, Trim, Render;
    var timeA, timeB := ParseI64(FindHeader(a, "Time").value).value, ParseI64(FindHeader(b, "Time").value).value;
    var userA, userB := FindHeader(a, "User").value, FindHeader(b, "User").value;
    SameSignature(HashKey(keyA, userA, lower), timeA, RemoveIn(a, "Sig"),
                 HashKey(keyB, userB, lower), timeB, RemoveIn(b, "Sig"));
    if HashKey(keyA, userA, lower) == HashKey(keyB, userB, lower) {
      SameKeyText(keyA, userA, keyB, userB, lower);
    }
  }

  lemma SameKeyText(keyA: string, userA: string, keyB: string, userB: string, lower: LowerCase)
    requires HashKey(keyA, userA, lower) == HashKey(keyB, userB, lower)
    ensures userA + ":" + lower(keyA) == userB + ":" + lower(keyB) || Collision()
  {
    hide Fips180.Hash, HexText, Encode;
    var s, t := userA + ":" + lower(keyA), userB + ":" + lower(keyB);
    HexInjective(Fips180.Hash(Encode(s)), Fips180.Hash(Encode(t)));
    ReadEncoded(s);
    ReadEncoded(t);
  }

  /** The server reads a signed, well-formed request as it was signed, and accepts its signature exactly
      when the two clocks are at most 300 seconds apart. */
  lemma SignedSurvivesWire(headers: seq<Header>, account: Account, timestamp: i64, now: i64, lower: LowerCase)
    requires AllWellFormed(headers) && !Contains(headers, "Sig") && GoodValue(account.username)
    requires now >= 0 && timestamp >= 0
    ensures
      var signed := Signed(headers, account, timestamp, lower);
      var received := ParseHeaders(Clean(Encode(Render(signed))));
      && received == signed
      && (Verify(received, account.key, now, lower).Ok? <==> -300 <= now - timestamp <= 300)
  {
    hide Signed, ParseHeaders, Clean, Render, AllWellFormed, WellFormed, Verify, TimeGap, Encode, Contains;
    SignedIsWellFormed(headers, account, timestamp, lower);
    WireRoundTrip(Signed(headers, account, timestamp, lower));
    SignedVerifies(headers, account, timestamp, now, lower);
    FreshExactly(now, timestamp);
  }

  ghost predicate Collision() {
    exists x, y :: x != y && Fips180.Hash(x) == Fips180.Hash(y)
  }

  lemma SuffixParts(timestamp: i64, hashedKey: string, other: i64, otherKey: string)
    requires Suffix(timestamp, hashedKey) == Suffix(other, otherKey)
    ensures timestamp == other && hashedKey == otherKey
  {
    hide IntText;
    var s := Suffix(timestamp, hashedKey);
    TimeBeforeColon(timestamp, hashedKey);
    TimeBeforeColon(other, otherKey);
    ParseIntText(timestamp);
    ParseIntText(other);
  }

  lemma TimeBeforeColon(timestamp: i64, hashedKey: string)
    ensures
      var rest := Suffix(timestamp, hashedKey)[1..];
      var i := Find(rest, ':');
      i < |rest| && rest[..i] == IntText(timestamp) && rest[i + 1..] == hashedKey
  {
    var text := IntText(timestamp);
    var m: int := timestamp;
    assert AllDigits(NatText(if m < 0 then -m else m));
    assert ':' !in text;
    FindAt(text, ':', hashedKey);
    assert Suffix(timestamp, hashedKey)[1..] == text + [':'] + hashedKey;
  }

  /** White space around the text and the case of the key do not count, */
  lemma SignaturesIgnore(a: seq<Header>, b: seq<Header>, keyA: string, keyB: string, user: string, timestamp: i64,
                         lower: LowerCase)
    requires Trim(Render(a)) == Trim(Render(b)) && lower(keyA) == lower(keyB)
    ensures SignText(HashKey(keyA, user, lower), timestamp, a) == SignText(HashKey(keyB, user, lower), timestamp, b)
  {
    hide Fips180.Hash, HexText, Encode, Render, Trim, IntText;
  }

  /** and otherwise equal signatures are of equal text, time and key, or show two inputs with one hash. */
  lemma SameSignature(keyA: string, timeA: i64, a: seq<Header>, keyB: string, timeB: i64, b: seq<Header>)
    requires SignText(keyA, timeA, a) == SignText(keyB, timeB, b)
    ensures (Trim(Render(a)) == Trim(Render(b)) && timeA == timeB && keyA == keyB) || Collision()
  {
    hide Fips180.Hash, HexText, Encode, Render, Trim, IntText;
    var s, t := Encode(Trim(Render(a))), Encode(Trim(Render(b)));
    var restA, restB := Suffix(timeA, keyA), Suffix(timeB, keyB);
    var x, y := Fips180.Hash(s) + Encode(restA), Fips180.Hash(t) + Encode(restB);
    HexInjective(Fips180.Hash(x), Fips180.Hash(y));
    assert Fips180.Hash(x) == Fips180.Hash(y);
    if x == y {
      assert Fips180.Hash(s) == x[..20] && Fips180.Hash(t) == y[..20];
      assert Encode(restA) == x[20..] && Encode(restB) == y[20..];
      ReadEncoded(Trim(Render(a)));
      ReadEncoded(Trim(Render(b)));
      ReadEncoded(restA);
      ReadEncoded(restB);
      SuffixParts(timeA, keyA, timeB, keyB);
    }
  }
}
