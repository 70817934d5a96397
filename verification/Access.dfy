/** The access rules of the server (load_access_file_with_logger of src/config.rs). */
module Access {
  import opened Wrappers
  import opened Text
  import Accounts

  const ALL_OPS: seq<string> := ["check", "report", "ping", "pong", "info", "whitelist"]
  const DEFAULT_ANON_OPS: seq<string> := ["check", "report", "ping", "pong", "info"]

  type Acl = map<string, set<string>>

  /** `split_inclusive('\n')`. */
  function PyLines(s: string): seq<string> {
    if s == "" then []
    else
      var i := Find(s, '\n');
      if i == |s| then [s] else [s[..i + 1]] + PyLines(s[i + 1..])
  }

  datatype Rule = Rule(operations: seq<string>, users: seq<string>, allow: bool)

  /** The rule on a line, if there is a valid one. `names` are the names of the accounts and `lower` is the library's
      lower case. */
  function RuleOf(line: string, names: seq<string>, lower: string -> string): Option<Rule> {
    if Trim(line) == "" || line[0] == '#' then None
    else
      var parts := Split(line, ':');
      if |parts| != 3 then None
      else
        var operations, users, verdict := lower(Trim(parts[0])), lower(Trim(parts[1])), lower(Trim(parts[2]));
        if verdict != "allow" && verdict != "deny" then None
        else Some(Rule(if operations == "all" then ALL_OPS else SplitWhitespace(operations),
                       if users == "all" then names else SplitWhitespace(users),
                       verdict == "allow"))
  }

  predicate Granted(acl: Acl, user: string, op: string) {
    user in acl && op in acl[user]
  }

  function WithUser(acl: Acl, rule: Rule, user: string): Acl {
    var entry := if user in acl then acl[user] else {};
    var operations := set op | op in rule.operations;
    acl[user := if rule.allow then entry + operations else entry - operations]
  }

  function WithUsers(acl: Acl, rule: Rule, users: seq<string>): Acl {
    if users == [] then acl
    else WithUser(WithUsers(acl, rule, users[..|users| - 1]), rule, users[|users| - 1])
  }

  function WithLine(acl: Acl, line: string, names: seq<string>, lower: string -> string): Acl {
    var rule := RuleOf(line, names, lower);
    if rule.None? then acl else WithUsers(acl, rule.value, rule.value.users)
  }

  function WithLines(lines: seq<string>, names: seq<string>, lower: string -> string): Acl {
    if lines == [] then map[]
    else WithLine(WithLines(lines[..|lines| - 1], names, lower), lines[|lines| - 1], names, lower)
  }

  /** The rules of a text; without a file, the anonymous user may do everything but whitelist. */
  function AclOf(text: Option<string>, names: seq<string>, lower: string -> string): Acl {
    if text.None? then map[Accounts.ANONYMOUS_USER := set op | op in DEFAULT_ANON_OPS]
    else WithLines(PyLines(text.value), names, lower)
  }

  method LoadAccessFile(text: Option<string>, names: seq<string>, lower: string -> string) returns (acl: Acl)
    ensures acl == AclOf(text, names, lower)
  {
    if text.None? {
      return map[Accounts.ANONYMOUS_USER := set op | op in DEFAULT_ANON_OPS];
    }
    hide WithUsers, Trim, Split, SplitWhitespace;
    var lines := PyLines(text.value);
    acl := map[];
    for i := 0 to |lines|
      invariant acl == WithLines(lines[..i], names, lower)
    {
      assert lines[..i + 1][..i] == lines[..i];
      var line := lines[i];
      if Trim(line) == "" || line[0] == '#' {
        continue;
      }
      var parts := Split(line, ':');
      if |parts| != 3 {
        continue;
      }
      var operations, users, verdict := lower(Trim(parts[0])), lower(Trim(parts[1])), lower(Trim(parts[2]));
      if verdict != "allow" && verdict != "deny" {
        continue;
      }
      var rule := Rule(if operations == "all" then ALL_OPS else SplitWhitespace(operations),
                       if users == "all" then names else SplitWhitespace(users),
                       verdict == "allow");
      assert RuleOf(line, names, lower) == Some(rule);
      acl := GrantAll(acl, rule);
    }
    assert lines[..|lines|] == lines;
  }

  method GrantAll(acl: Acl, rule: Rule) returns (after: Acl)
    ensures after == WithUsers(acl, rule, rule.users)
  {
    after := acl;
    for u := 0 to |rule.users|
      invariant after == WithUsers(acl, rule, rule.users[..u])
    {
      assert rule.users[..u + 1][..u] == rule.users[..u];
      var user := rule.users[u];
      var entry := if user in after then after[user] else {};
      if rule.allow {
        entry := entry + set op | op in rule.operations;
      } else {
        for o := 0 to |rule.operations|
          invariant entry == (if user in after then after[user] else {}) - set op | op in rule.operations[..o]
        {
          entry := entry - {rule.operations[o]};
        }
        assert rule.operations[..|rule.operations|] == rule.operations;
      }
      after := after[user := entry];
    }
    assert rule.users[..|rule.users|] == rule.users;
  }

  // ----- the last rule wins -----

  /** The line holds a valid rule that is about this user and operation. */
  predicate Names(line: string, user: string, op: string, names: seq<string>, lower: string -> string) {
    var rule := RuleOf(line, names, lower);
    rule.Some? && user in rule.value.users && op in rule.value.operations
  }

  predicate Allows(line: string, names: seq<string>, lower: string -> string) {
    var rule := RuleOf(line, names, lower);
    rule.Some? && rule.value.allow
  }

  /** The line's rule decides about the user and operation: no later line names them. */
  predicate Decides(lines: seq<string>, k: nat, user: string, op: string, names: seq<string>, lower: string -> string) {
    && k < |lines| && Names(lines[k], user, op, names, lower)
    && forall j | k < j < |lines| :: !Names(lines[j], user, op, names, lower)
  }

  ghost predicate LastAllows(lines: seq<string>, user: string, op: string, names: seq<string>, lower: string -> string) {
    exists k: nat :: Decides(lines, k, user, op, names, lower) && Allows(lines[k], names, lower)
  }

  lemma {:induction false} UsersGranted(acl: Acl, rule: Rule, users: seq<string>, user: string, op: string)
    ensures Granted(WithUsers(acl, rule, users), user, op)
       <==> if user in users && op in rule.operations then rule.allow else Granted(acl, user, op)
  {
    if users != [] {
      UsersGranted(acl, rule, users[..|users| - 1], user, op);
      assert users == users[..|users| - 1] + [users[|users| - 1]];
    }
  }

  lemma LineGranted(acl: Acl, line: string, user: string, op: string, names: seq<string>, lower: string -> string)
    ensures Granted(WithLine(acl, line, names, lower), user, op)
       <==> if Names(line, user, op, names, lower) then Allows(line, names, lower) else Granted(acl, user, op)
  {
    hide RuleOf, WithUsers;
    var rule := RuleOf(line, names, lower);
    if rule.Some? {
      UsersGranted(acl, rule.value, rule.value.users, user, op);
    }
  }

  lemma {:induction false} LinesGranted(lines: seq<string>, user: string, op: string, names: seq<string>,
                                        lower: string -> string)
    ensures Granted(WithLines(lines, names, lower), user, op)
       <==> LastAllows(lines, user, op, names, lower)
  {
    hide Names, Allows, WithLine, Granted;
    if lines == [] {
      assert !Granted(map[], user, op) by {
        NothingGranted(user, op);
      }
    } else {
      var n := |lines| - 1;
      LinesGranted(lines[..n], user, op, names, lower);
      LineGranted(WithLines(lines[..n], names, lower), lines[n], user, op, names, lower);
      if Names(lines[n], user, op, names, lower) {
        assert Decides(lines, n, user, op, names, lower);
        assert forall k: nat :: Decides(lines, k, user, op, names, lower) ==> k == n;
      } else {
        assert forall k: nat :: Decides(lines, k, user, op, names, lower)
                            <==> Decides(lines[..n], k, user, op, names, lower);
      }
    }
  }

  lemma NothingGranted(user: string, op: string)
    ensures !Granted(map[], user, op)
  {
  }

  /** For every text, user and operation: the loaded rules grant the operation exactly when the last valid line that
      names the user and the operation, "all" standing for all of them, says allow. */
  lemma LastRuleWins(text: string, user: string, op: string, names: seq<string>, lower: string -> string)
    ensures Granted(AclOf(Some(text), names, lower), user, op)
       <==> LastAllows(PyLines(text), user, op, names, lower)
  {
    hide LastAllows, WithLines, Granted, PyLines;
    LinesGranted(PyLines(text), user, op, names, lower);
  }

  // ----- what a line of the text does -----

  lemma {:induction false} PyLinesAppend(before: string, line: string, end: string)
    requires before == "" || before[|before| - 1] == '\n'
    requires line != "" && '\n' !in line && (end == "" || end == "\n")
    ensures PyLines(before + line + end) == PyLines(before) + [line + end]
  {
    hide Find, PyLines;
    if before == "" {
      NoPyLines();
      LastLine(line, end);
      assert before + line + end == line + end;
    } else {
      var i := Find(before, '\n');
      assert i < |before|;
      var first, rest := before[..i], before[i + 1..];
      assert before == first + ['\n'] + rest && before + line + end == first + ['\n'] + (rest + line + end);
      FirstPyLine(first, rest);
      FirstPyLine(first, rest + line + end);
      assert rest != "" ==> rest[|rest| - 1] == before[|before| - 1];
      PyLinesAppend(rest, line, end);
    }
  }

  lemma NoPyLines()
    ensures PyLines("") == []
  {
  }

  lemma FirstPyLine(first: string, rest: string)
    requires '\n' !in first
    ensures PyLines(first + ['\n'] + rest) == [first + ['\n']] + PyLines(rest)
  {
    hide Find;
    FindAt(first, '\n', rest);
    var s := first + ['\n'] + rest;
    assert s[..|first| + 1] == first + ['\n'] && s[|first| + 1..] == rest;
  }

  lemma LastLine(line: string, end: string)
    requires line != "" && '\n' !in line && (end == "" || end == "\n")
    ensures PyLines(line + end) == [line + end]
  {
    hide Find;
    if end == "" {
      FindNone(line, '\n');
      assert line + end == line;
    } else {
      NoPyLines();
      FirstPyLine(line, "");
      assert line + end == line + ['\n'] + "";
    }
  }

  /** The rules of some lines with one more line at the end are the rules before it, changed by that line. */
  lemma OneMoreLine(before: string, line: string, end: string, names: seq<string>, lower: string -> string)
    requires before == "" || before[|before| - 1] == '\n'
    requires line != "" && '\n' !in line && (end == "" || end == "\n")
    ensures AclOf(Some(before + line + end), names, lower)
         == WithLine(AclOf(Some(before), names, lower), line + end, names, lower)
  {
    hide PyLines, WithLine;
    PyLinesAppend(before, line, end);
    var lines := PyLines(before);
    assert (lines + [line + end])[..|lines|] == lines;
  }

  /** A field lists a word by its white-space separated words in lower case, or all words of `every` by "all". */
  predicate Lists(field: string, word: string, every: seq<string>, lower: string -> string) {
    var text := lower(Trim(field));
    if text == "all" then word in every else word in SplitWhitespace(text)
  }

  predicate IsRuleText(operations: string, users: string, verdict: string) {
    && (forall s | s in [operations, users, verdict] :: ':' !in s && '\n' !in s)
    && (operations != "" ==> operations[0] != '#')
  }

  lemma {:induction false} TrimNewline(s: string, end: string)
    requires end == "" || end == "\n"
    ensures Trim(s + end) == Trim(s)
  {
    if end == "" {
      assert s + end == s;
    } else if s == "" {
      assert "\n"[1..] == "" && s + end == "\n";
    } else if IsWhitespace(s[0]) {
      assert (s + end)[1..] == s[1..] + end;
      TrimNewline(s[1..], end);
    } else {
      assert (s + end)[..|s + end| - 1] == s;
    }
  }

  lemma {:induction false} NotBlank(s: string, c: char)
    requires c in s && !IsWhitespace(c)
    ensures Trim(s) != ""
  {
    hide IsWhitespace;
    if IsWhitespace(s[0]) {
      NotBlank(s[1..], c);
    } else {
      StartsBlack(s);
    }
  }

  lemma {:induction false} StartsBlack(s: string)
    requires s != "" && !IsWhitespace(s[0])
    ensures TrimEnd(s) != ""
  {
    hide IsWhitespace;
    if IsWhitespace(s[|s| - 1]) {
      assert |s| > 1 && s[..|s| - 1][0] == s[0];
      StartsBlack(s[..|s| - 1]);
    }
  }

  lemma ThreeFields(operations: string, users: string, verdict: string)
    requires ':' !in operations && ':' !in users && ':' !in verdict
    ensures Split(operations + ":" + users + ":" + verdict, ':') == [operations, users, verdict]
  {
    hide Find;
    SplitStep(operations, ':', users + ":" + verdict);
    SplitStep(users, ':', verdict);
    FindNone(verdict, ':');
    assert operations + ":" + users + ":" + verdict == operations + [':'] + (users + [':'] + verdict);
  }

  lemma ColonIsBlack()
    ensures !IsWhitespace(':')
  {
  }

  /** A line of three fields at the end of a text: "allow" grants what it lists to whom it lists, "deny" withdraws it,
      in any case and with any padding, and nothing else changes. */
  lemma RuleLine(before: string, operations: string, users: string, verdict: string, end: string, user: string, op: string,
                 names: seq<string>, lower: string -> string)
    requires before == "" || before[|before| - 1] == '\n'
    requires IsRuleText(operations, users, verdict) && (end == "" || end == "\n")
    ensures
      var line := operations + ":" + users + ":" + verdict;
      var all := ["check", "report", "ping", "pong", "info", "whitelist"];
      var text, listed := lower(Trim(verdict)), Lists(operations, op, all, lower) && Lists(users, user, names, lower);
      Granted(AclOf(Some(before + line + end), names, lower), user, op)
      <==> if text == "allow" && listed then true
           else if text == "deny" && listed then false
           else Granted(AclOf(Some(before), names, lower), user, op)
  {
    hide AclOf, WithUsers, Trim, SplitWhitespace, Granted, Split, RuleOf;
    var line := operations + ":" + users + ":" + verdict;
    assert operations in [operations, users, verdict] && users in [operations, users, verdict]
        && verdict in [operations, users, verdict];
    assert '\n' !in line && line[|operations|] == ':';
    OneMoreLine(before, line, end, names, lower);
    LineGranted(AclOf(Some(before), names, lower), line + end, user, op, names, lower);
    RuleOfFields(operations, users, verdict, end, names, lower);
  }

  lemma RuleOfFields(operations: string, users: string, verdict: string, end: string, names: seq<string>,
                     lower: string -> string)
    requires IsRuleText(operations, users, verdict) && (end == "" || end == "\n")
    ensures
      var rule := RuleOf(operations + ":" + users + ":" + verdict + end, names, lower);
      var text := lower(Trim(verdict));
      && (rule.Some? <==> text == "allow" || text == "deny")
      && (rule.Some? ==>
            && (rule.value.allow <==> text == "allow")
            && (forall op :: op in rule.value.operations <==> Lists(operations, op, ALL_OPS, lower))
            && (forall user :: user in rule.value.users <==> Lists(users, user, names, lower)))
  {
    hide Trim, SplitWhitespace, Split, IsWhitespace;
    var line := operations + ":" + users + ":" + verdict + end;
    assert operations in [operations, users, verdict] && users in [operations, users, verdict]
        && verdict in [operations, users, verdict];
    assert line == operations + ":" + users + ":" + (verdict + end);
    assert line[|operations|] == ':';
    ColonIsBlack();
    NotBlank(line, ':');
    assert ':' !in verdict + end;
    ThreeFields(operations, users, verdict + end);
    TrimNewline(verdict, end);
  }

  /** Comments, blank lines, and lines without exactly two colons change nothing. */
  lemma OtherLine(before: string, line: string, end: string, names: seq<string>, lower: string -> string)
    requires before == "" || before[|before| - 1] == '\n'
    requires line != "" && '\n' !in line && (end == "" || end == "\n")
    requires line[0] == '#' || AllWhitespace(line) || |Split(line, ':')| != 3
    ensures AclOf(Some(before + line + end), names, lower) == AclOf(Some(before), names, lower)
  {
    hide AclOf, Trim, Split, IsWhitespace;
    OneMoreLine(before, line, end, names, lower);
    if AllWhitespace(line) {
      AllBlank(line);
    }
    TrimNewline(line, end);
    SplitCount(line, end, ':');
  }

  lemma {:induction false} AllBlank(s: string)
    requires AllWhitespace(s)
    ensures Trim(s) == ""
  {
    hide IsWhitespace;
    if s != "" {
      assert s[0] in s;
      assert forall c | c in s[1..] :: c in s;
      AllBlank(s[1..]);
    }
  }

  lemma {:induction false} SplitCount(s: string, end: string, c: char)
    requires c !in end
    ensures |Split(s + end, c)| == |Split(s, c)|
  {
    hide Find;
    var i := Find(s, c);
    if i < |s| {
      assert s == s[..i] + [c] + s[i + 1..];
      assert s + end == s[..i] + [c] + (s[i + 1..] + end);
      SplitStep(s[..i], c, s[i + 1..] + end);
      SplitCount(s[i + 1..], end, c);
    } else {
      assert c !in s;
      FindNone(s + end, c);
    }
  }
}
