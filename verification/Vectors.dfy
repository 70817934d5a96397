/** The formats of the program on the values of its own unit tests (src/engines.rs, src/message.rs, src/digest.rs). */
module Vectors {
  import opened Wrappers
  import opened Text
  import opened LocalTime
  import opened Records
  import opened Engines
  import opened Utf8
  import opened Headers
  import opened Messages
  import opened Mime
  import opened Payloads
  import opened Predigest
  import opened RedisProtocol
  import opened Leaves
  import opened Sha1
  import Fips180
  import Sha1Vector

  // ----- times and records -----

  const ENTERED: i64 := 1_400_221_786
  const UPDATED: i64 := 1_400_221_794
  const ENTERED_TEXT: string := "2014-05-16 06:29:46"
  const UPDATED_TEXT: string := "2014-05-16 06:29:54"

  lemma EnteredComponents()
    ensures UtcComponents(ENTERED) == Components(Date(2014, 5, 16), 6, 29, 46)
    ensures UtcComponents(UPDATED) == Components(Date(2014, 5, 16), 6, 29, 54)
  {
    assert ENTERED / 86_400 == 16_206 && ENTERED % 86_400 == 23_386;
    assert UPDATED / 86_400 == 16_206 && UPDATED % 86_400 == 23_394;
    EnteredDate();
  }

  lemma EnteredDate()
    ensures CivilFromDays(16_206) == Date(2014, 5, 16)
  {
  }

  lemma Padded()
    ensures PaddedText(2014, 4) == "2014" && PaddedText(5, 2) == "05" && PaddedText(16, 2) == "16"
    ensures PaddedText(6, 2) == "06" && PaddedText(29, 2) == "29"
    ensures PaddedText(46, 2) == "46" && PaddedText(54, 2) == "54"
  {
  }

  lemma EnteredTexts()
    ensures FormatTimestamp(ENTERED) == ENTERED_TEXT && FormatTimestamp(UPDATED) == UPDATED_TEXT
  {
    hide UtcComponents, PaddedText, Join;
    EnteredComponents();
    Padded();
    JoinThree("2014", "05", "16", "-");
    JoinThree("06", "29", "46", ":");
    JoinThree("06", "29", "54", ":");
    assert ENTERED_TEXT == "2014" + "-" + "05" + "-" + "16" + " " + ("06" + ":" + "29" + ":" + "46");
    assert UPDATED_TEXT == "2014" + "-" + "05" + "-" + "16" + " " + ("06" + ":" + "29" + ":" + "54");
  }

  const RECORD: Record := Record(24, 42, Some(ENTERED), Some(UPDATED), None, None)

  lemma Numbers()
    ensures IntText(24) == "24" && IntText(42) == "42" && IntText(0) == "0"
    ensures NatText(20) == "20" && NatText(3) == "3" && NatText(60) == "60"
  {
  }

  lemma JoinCons(a: string, rest: seq<string>)
    requires rest != []
    ensures Join([a] + rest, ",") == a + "," + Join(rest, ",")
  {
    assert ([a] + rest)[1..] == rest;
  }

  lemma JoinSix(a: string, b: string, c: string, d: string, e: string, f: string)
    ensures Join([a, b, c, d, e, f], ",") == a + "," + (b + "," + (c + "," + (d + "," + (e + "," + f))))
  {
    hide Join;
    assert [a, b, c, d, e, f] == [a] + ([b] + ([c] + ([d] + ([e] + [f]))));
    JoinOne(f);
    JoinCons(e, [f]);
    JoinCons(d, [e] + [f]);
    JoinCons(c, [d] + ([e] + [f]));
    JoinCons(b, [c] + ([d] + ([e] + [f])));
    JoinCons(a, [b] + ([c] + ([d] + ([e] + [f]))));
  }

  lemma JoinOne(a: string)
    ensures Join([a], ",") == a
  {
  }

  /** A record as the file and the text store of Redis hold it, */
  lemma RecordTexts()
    ensures EncodeRecord(RECORD) == "1,24," + (ENTERED_TEXT + "," + (UPDATED_TEXT + ",42,None,None"))
    ensures RedisV0EncodeRecord(RECORD) == "24," + (ENTERED_TEXT + "," + (UPDATED_TEXT + ",42,,"))
  {
    hide Join, FormatTimestamp, IntText;
    EnteredTexts();
    Numbers();
    FileText(ENTERED_TEXT, UPDATED_TEXT);
    RedisText(ENTERED_TEXT, UPDATED_TEXT);
  }

  lemma FileText(e: string, u: string)
    ensures Join(["1", "24", e, u, "42", "None", "None"], ",") == "1,24," + (e + "," + (u + ",42,None,None"))
  {
    hide Join;
    JoinSix("24", e, u, "42", "None", "None");
    JoinCons("1", ["24", e, u, "42", "None", "None"]);
    assert ["1"] + ["24", e, u, "42", "None", "None"] == ["1", "24", e, u, "42", "None", "None"];
    var tail := u + "," + ("42" + "," + ("None" + "," + "None"));
    assert tail == u + ",42,None,None";
    assert "1" + "," + ("24" + "," + (e + "," + tail)) == "1,24," + (e + "," + tail);
  }

  lemma RedisText(e: string, u: string)
    ensures Join(["24", e, u, "42", "", ""], ",") == "24," + (e + "," + (u + ",42,,"))
  {
    hide Join;
    JoinSix("24", e, u, "42", "", "");
    var tail := u + "," + ("42" + "," + ("" + "," + ""));
    assert tail == u + ",42,,";
    assert "24" + "," + (e + "," + tail) == "24," + (e + "," + tail);
  }

  /** the fields and keys of Redis, */
  lemma RedisForms(digest: string)
    ensures RedisV1EncodeRecord(RECORD)
         == [("r_count", "24"), ("r_entered", "1400221786"), ("r_updated", "1400221794"),
             ("wl_count", "42"), ("wl_entered", "0"), ("wl_updated", "0")]
    ensures RedisV0Key(digest) == "pyzord.digest." + digest
    ensures RedisV1Key(digest) == "pyzord.digest_v1." + digest
  {
    hide IntText;
    Numbers();
    LongNumbers();
    assert REDIS_V0_NAMESPACE + "." == "pyzord.digest.";
    assert REDIS_V1_NAMESPACE + "." == "pyzord.digest_v1.";
  }

  lemma LongNumbers()
    ensures IntText(ENTERED) == "1400221786" && IntText(UPDATED) == "1400221794"
  {
    hide NatText;
    Ten(1_400_221_786, 140_022_178, 6);
    Ten(140_022_178, 14_002_217, 8);
    Ten(14_002_217, 1_400_221, 7);
    Ten(1_400_221, 140_022, 1);
    Ten(140_022, 14_002, 2);
    Ten(14_002, 1400, 2);
    Ten(1400, 140, 0);
    Ten(140, 14, 0);
    Ten(14, 1, 4);
    OneDigit();
    Ten(1_400_221_794, 140_022_179, 4);
    Ten(140_022_179, 14_002_217, 9);
  }

  lemma Ten(n: nat, q: nat, d: nat)
    requires d < 10 && q > 0 && n == 10 * q + d
    ensures NatText(n) == NatText(q) + [(48 + d) as char]
  {
    assert n / 10 == q && n % 10 == d;
    LastDigit(n);
  }

  lemma LastDigit(n: nat)
    requires n >= 10
    ensures NatText(n) == NatText(n / 10) + [(48 + n % 10) as char]
  {
  }

  lemma OneDigit()
    ensures NatText(1) == "1"
  {
  }

  /** and an old text of three fields, which holds reports only. */
  lemma ThreeFields(count: i64, entered: i64, updated: i64)
    requires entered != 0 && updated != 0
    ensures DecodeRecord(Join([IntText(count), IntText(entered), IntText(updated)], ","))
         == Some(Record(count, 0, Some(entered), Some(updated), None, None))
  {
    hide Join, Split, ParseI64, IntText, ParseDatetime;
    var parts := [IntText(count), IntText(entered), IntText(updated)];
    IntTextCharacters(count, ',');
    IntTextCharacters(entered, ',');
    IntTextCharacters(updated, ',');
    SplitJoin(parts, ',');
    ParseIntText(count);
    NumberTime(entered);
    NumberTime(updated);
  }

  lemma NumberTime(n: i64)
    requires n != 0
    ensures DecodeTime(IntText(n)) == Some(n)
  {
    hide IntText, ParseDatetime, ParseI64;
    ParseIntText(n);
    ParseIntText(0);
    Numbers();
    NoNumber();
  }

  lemma NoNumber()
    ensures ParseI64("None") == None && ParseI64("") == None
  {
    assert !IsDigit("None"[0]);
  }

  /** A record's time may have a fraction of a second. */
  lemma TimeWithFraction(fraction: string)
    ensures DecodeTime(ENTERED_TEXT + "." + fraction) == Some(ENTERED)
  {
    hide ParseDatetime, FormatTimestamp;
    var text := ENTERED_TEXT + "." + fraction;
    EnteredTexts();
    ParseFormatted(ENTERED);
    FractionIgnored("2014-05-16", "06:29:46", fraction);
    assert ENTERED_TEXT == "2014-05-16" + " " + "06:29:46";
    assert text == "2014-05-16" + " " + "06:29:46" + "." + fraction;
    assert text[4] == '-' && text[0] == '2' && !IsDigit('-');
  }

  /** Another number of fields, another version, or a count that is no number: no record. */
  lemma NoRecord(parts: seq<string>)
    requires parts != [] && forall p | p in parts :: ',' !in p
    requires
      || (|parts| != 3 && |parts| != 7)
      || (|parts| == 3 && ParseI64(parts[0]).None?)
      || (|parts| == 7 && (parts[0] != "1" || ParseI64(parts[1]).None? || ParseI64(parts[4]).None?))
    ensures DecodeRecord(Join(parts, ",")) == None
  {
    hide Join, Split, ParseI64, DecodeTime;
    SplitJoin(parts, ',');
  }

  lemma NoRedisRecord(parts: seq<string>)
    requires parts != [] && forall p | p in parts :: ',' !in p
    requires |parts| != 6 || ParseI64(parts[0]).None? || ParseI64(parts[3]).None?
    ensures RedisV0DecodeRecord(Join(parts, ",")) == None
  {
    hide Join, Split, ParseI64, RedisV0DecodeTime;
    SplitJoin(parts, ',');
  }

  // ----- text and messages -----

  /** Characters of each length, and of pieces that are broken: an overlong form, half a pair, and too large a number. */
  lemma Utf8Forms()
    ensures Encode("\U{00E9}") == [0xC3, 0xA9] && Encode("\U{20AC}") == [0xE2, 0x82, 0xAC]
    ensures Encode("\U{1F600}") == [0xF0, 0x9F, 0x98, 0x80]
    ensures Next([0xC0, 0xAF]) == Broken(1) && Next([0xED, 0xA0, 0x80]) == Broken(1)
    ensures Next([0xF4, 0x90, 0x80, 0x80]) == Broken(1) && Next([0xE2, 0x82]) == Broken(2)
  {
    EncodeFirst("\U{00E9}");
    EncodeFirst("\U{20AC}");
    EncodeFirst("\U{1F600}");
    assert Encode("") == [];
  }

  /** Headers that share a name are printed one after the other. */
  lemma PrintedMessage(name: string, a: string, b: string)
    ensures Render([(name, a), (name, b)]) == name + ": " + a + "\n" + (name + ": " + b + "\n") + "\n"
  {
    hide Terminated, HeaderTexts;
    TwoTexts((name, a), (name, b));
    TwoTerminated(name + ": " + a, name + ": " + b);
  }

  lemma TwoTexts(g: Header, h: Header)
    ensures HeaderTexts([g, h]) == [HeaderText(g), HeaderText(h)]
  {
    hide HeaderText;
    assert [g, h][..1] == [g] && [g][..0] == [];
    assert HeaderTexts([g]) == HeaderTexts([]) + [HeaderText(g)];
  }

  lemma TwoTerminated(a: string, b: string)
    ensures Terminated([a, b]) == a + "\n" + (b + "\n")
  {
    assert [a, b][1..] == [b] && [b][1..] == [];
    assert Terminated([b]) == b + "\n" + Terminated([]);
  }

  /** What a client asks with, */
  lemma Requests(op: string, digest: string)
    ensures Request(op) == [("Op", op)]
    ensures DigestRequest(op, digest) == [("Op", op), ("Op-Digest", digest)]
    ensures SpecDigestRequest(op, digest, DIGEST_SPEC) == [("Op", op), ("Op-Digest", digest), ("Op-Spec", "20,3,60,3")]
  {
    hide NatText;
    Numbers();
    SpecNumbersOf();
    var parts := ["20", "3", "60", "3"];
    JoinFour("20", "3", "60", "3");
    assert "20" + "," + ("3" + "," + ("60" + "," + "3")) == "20,3,60,3";
  }

  lemma JoinFour(a: string, b: string, c: string, d: string)
    ensures Join([a, b, c, d], ",") == a + "," + (b + "," + (c + "," + d))
  {
    hide Join;
    assert [a, b, c, d] == [a] + ([b] + ([c] + [d]));
    JoinOne(d);
    JoinCons(c, [d]);
    JoinCons(b, [c] + [d]);
    JoinCons(a, [b] + ([c] + [d]));
  }

  lemma SpecNumbersOf()
    ensures SpecNumbers(DIGEST_SPEC) == [NatText(20), NatText(3), NatText(60), NatText(3)]
  {
    hide NatText;
    assert DIGEST_SPEC[1..] == [(60, 3)] && DIGEST_SPEC[1..][1..] == [];
  }

  /** and what is set before it is sent. */
  lemma SentVersion(op: string, thread: string)
    ensures Initialised(Request(op), thread) == [("Op", op), ("Thread", thread), ("PV", "2.1")]
  {
    hide Lower;
    NamesDiffer();
    var h: seq<Header> := [("Op", op), ("Thread", thread)];
    assert FindHeader(Request(op), "Thread") == None by {
      assert Request(op)[1..] == [];
    }
    assert h == Request(op) + [("Thread", thread)];
    assert h[1..] == [("Thread", thread)] && h[1..][1..] == [];
    assert SetIn(h[1..], "PV", "2.1") == [("Thread", thread)] + SetIn([], "PV", "2.1");
  }

  lemma NamesDiffer()
    ensures !EqIgnoreAsciiCase("Op", "Thread") && !EqIgnoreAsciiCase("Op", "PV") && !EqIgnoreAsciiCase("Thread", "PV")
  {
    assert Lower("Op")[0] == 'o' && Lower("PV")[0] == 'p';
  }

  /** A thread that is there already stays. */
  lemma ThreadStays(headers: seq<Header>, thread: string)
    ensures
      FindHeader(Initialised(headers, thread), "Thread")
      == if Contains(headers, "Thread") then FindHeader(headers, "Thread") else Some(thread)
  {
    hide Lower, FindHeader, SetIn;
    NamesDiffer();
    GetAfterSet(if Contains(headers, "Thread") then headers else headers + [("Thread", thread)], "PV", PROTO_VERSION, "Thread");
    if !Contains(headers, "Thread") {
      AbsentIsAppended(headers, "Thread", thread);
      GetAfterSet(headers, "Thread", thread, "Thread");
    }
  }

  /** A Redis command in bytes: an asterisk and how many, and for each a dollar sign, how long, and the bytes, all with
      CRLF, */
  lemma CommandBytes(args: seq<seq<byte>>)
    ensures Command(args) == [42] + Encode(NatText(|args|)) + [13, 10] + BulksBytes(args)
    ensures BulksBytes([]) == []
    ensures args != [] ==>
      BulksBytes(args) == [36] + Encode(NatText(|args[0]|)) + [13, 10] + args[0] + [13, 10] + BulksBytes(args[1..])
  {
    hide Encode, NatText;
  }

  /** and stored fields that cannot be read: a count is 0, a time is missing, and so is what has no field. */
  lemma UnreadableFields(text: string, name: string)
    requires ParseI64(text).None? && ParseDatetime(text).None?
    ensures RecordOfFields(map[name := text]) == DEFAULT
  {
    hide ParseI64, ParseDatetime;
  }

  /** A line that starts with a blank continues the last header on a new line; a line without a colon is no header. */
  lemma ReadLines(headers: seq<Header>, h: Header, line: string)
    ensures line != "" && (line[0] == ' ' || line[0] == '\t') ==>
              && ParseLine(headers + [h], line) == headers + [(h.0, h.1 + "\n" + Trim(line))]
              && ParseLine([], line) == []
    ensures line != "" && line[0] != ' ' && line[0] != '\t' && ':' !in line ==> ParseLine(headers, line) == headers
  {
    hide Trim, Find;
    if ':' !in line {
      FindNone(line, ':');
    }
  }

  // ----- a whole digest -----

  const HAM: string := "That's" + " " + ("some" + " " + ("good" + " " + ("ham" + " " + ("right" + " " + "there"))))
  const HAM_TEXT: string := "That's" + ("some" + ("good" + ("ham" + ("right" + "there"))))

  predicate IsLetter(c: char) {
    'a' <= c <= 'z' || 'A' <= c <= 'Z' || c == '\''
  }

  /** A short word of letters is kept as it is. */
  lemma OrdinaryWord(word: string)
    requires 0 < |word| < 10 && forall k | 0 <= k < |word| :: IsLetter(word[k])
    ensures NormalText(word) == word
  {
    hide NormalText;
    forall c | c in word
      ensures !IsWhitespace(c) && c != '@' && c != ':'
    {
    }
    FindNone(word, '@');
    FindNone(word, ':');
    OrdinaryTokenKept(word);
  }

  lemma Space()
    ensures IsWhitespace(' ')
  {
  }

  lemma TwoWords(a: string, b: string, text: string)
    requires NormalText(a) == a && NormalText(b) == text
    ensures NormalText(a + " " + b) == a + text
  {
    hide NormalText, IsWhitespace;
    Space();
    NormalTextSplits(a, ' ', b);
  }

  lemma HamNormal()
    ensures NormalText(HAM) == HAM_TEXT
  {
    hide NormalText;
    OrdinaryWord("That's");
    OrdinaryWord("some");
    OrdinaryWord("good");
    OrdinaryWord("ham");
    OrdinaryWord("right");
    OrdinaryWord("there");
    TwoWords("right", "there", "there");
    TwoWords("ham", "right" + " " + "there", "right" + "there");
    TwoWords("good", "ham" + " " + ("right" + " " + "there"), "ham" + ("right" + "there"));
    TwoWords("some", "good" + " " + ("ham" + " " + ("right" + " " + "there")), "good" + ("ham" + ("right" + "there")));
    TwoWords("That's", "some" + " " + ("good" + " " + ("ham" + " " + ("right" + " " + "there"))),
             "some" + ("good" + ("ham" + ("right" + "there"))));
  }

  /** The same text with a NUL in a word. */
  function WithNul(): string {
    "That's some good ham rig" + "\0" + "ht there"
  }

  lemma NulNormal()
    ensures NormalText(WithNul()) == HAM_TEXT
  {
    hide NormalText;
    HamNormal();
    NulsIgnored("That's some good ham rig", "ht there");
    assert "That's some good ham rig" + "ht there" == HAM;
  }

  lemma HamBytes()
    ensures Encode(HAM_TEXT) == Sha1Vector.LINE
  {
    hide Encode;
    EncodeAscii(HAM_TEXT);
    assert |HAM_TEXT| == 27;
  }

  /** A text of one line is its own payload and its one usable line, */
  lemma OneLineText(text: string, normal: string, registry: Registry)
    requires text != "" && IsLine(text)
    requires NormalText(text) == normal && |Encode(normal)| >= 8
    ensures DigestOf(Encode(text), DIGEST_SPEC, registry) == HexText(Fips180.Hash(Encode(normal)))
  {
    hide IsLine, Encode, NormalText, ParsePart, PayloadsOf, IsAscii, StartsLikeHeader, Fips180.Hash, HexText, Find, NormalizeText,
         UsableOf, Lines, EncodedLines;
    LineHolds(text);
    NormalizeTextIdentity(text);
    LinesOfOne(text);
    NoHeader(text);
    HeaderlessPayloads(text, text, registry);
    OneUsable(text);
    UsableLine(text);
    EncodedLinesJoin([normal]);
    assert Join([normal], "") == normal;
  }

  lemma LineHolds(text: string)
    requires IsLine(text)
    ensures IsAscii(text) && '\n' !in text && '\r' !in text && ':' !in text
  {
  }

  lemma LinesOfOne(text: string)
    requires text != "" && '\n' !in text
    ensures Lines(text) == [text]
  {
    FindNone(text, '\n');
  }

  lemma NoHeader(text: string)
    requires ':' !in text
    ensures !StartsLikeHeader(text)
  {
    forall name, rest
      ensures text != name + ":" + rest
    {
      ColonIn(name, rest);
    }
  }

  lemma ColonIn(name: string, rest: string)
    ensures ':' in name + ":" + rest
  {
    assert (name + ":" + rest)[|name|] == ':';
  }

  /** so this is its digest, NUL or not. */
  lemma HamDigest(registry: Registry)
    ensures DigestOf(Encode(HAM), DIGEST_SPEC, registry) == "0e01d5b816fe609f99157683" + "4db4da3c182bcef6"
    ensures DigestOf(Encode(WithNul()), DIGEST_SPEC, registry) == "0e01d5b816fe609f99157683" + "4db4da3c182bcef6"
  {
    hide IsLine, Encode, NormalText, DigestOf, Fips180.Hash, HexText;
    HamNormal();
    NulNormal();
    HamBytes();
    HamCharacters();
    Sha1Vector.LineDigest();
    OneLineText(HAM, HAM_TEXT, registry);
    OneLineText(WithNul(), HAM_TEXT, registry);
  }

  predicate IsLineChar(c: char) {
    c as int < 0x80 && c != '\n' && c != '\r' && c != ':'
  }

  predicate IsLine(s: string) {
    forall k | 0 <= k < |s| :: IsLineChar(s[k])
  }

  lemma HamCharacters()
    ensures IsLine(HAM) && HAM != "" && IsLine(WithNul()) && WithNul() != ""
  {
    HalfCharacters();
    assert HAM == "That's some good ham rig" + "ht there";
  }

  lemma HalfCharacters()
    ensures IsLine("That's some good ham rig") && IsLine("ht there") && IsLine("\0")
  {
  }
}
