/** Lists of headers, kept in order and with duplicates (src/message.rs, src/digest.rs). */
module Headers {
  import opened Wrappers
  import opened Text

  type Header = (string, string)

  /** The value of the first header of that name; names are compared without regard to ASCII case. */
  function FindHeader(headers: seq<Header>, name: string): Option<string> {
    if headers == [] then None
    else if EqIgnoreAsciiCase(headers[0].0, name) then Some(headers[0].1)
    else FindHeader(headers[1..], name)
  }

  predicate Contains(headers: seq<Header>, name: string) {
    FindHeader(headers, name).Some?
  }

  /** The values of all headers of that name. */
  function ValuesOf(headers: seq<Header>, name: string): seq<string> {
    if headers == [] then []
    else (if EqIgnoreAsciiCase(headers[0].0, name) then [headers[0].1] else []) + ValuesOf(headers[1..], name)
  }

  /** The headers with the first of that name given a new value, or a new one at the end. */
  function SetIn(headers: seq<Header>, name: string, value: string): seq<Header> {
    if headers == [] then [(name, value)]
    else if EqIgnoreAsciiCase(headers[0].0, name) then [(headers[0].0, value)] + headers[1..]
    else [headers[0]] + SetIn(headers[1..], name, value)
  }

  function RemoveIn(headers: seq<Header>, name: string): seq<Header> {
    if headers == [] then []
    else (if EqIgnoreAsciiCase(headers[0].0, name) then [] else [headers[0]]) + RemoveIn(headers[1..], name)
  }

  lemma RemoveAt(headers: seq<Header>, i: nat, name: string)
    requires i < |headers|
    ensures RemoveIn(headers[i..], name)
         == (if EqIgnoreAsciiCase(headers[i].0, name) then [] else [headers[i]]) + RemoveIn(headers[i + 1..], name)
  {
    hide Lower;
    assert headers[i..][1..] == headers[i + 1..];
  }

  lemma RemoveNothing(name: string)
    ensures RemoveIn([], name) == []
  {
  }

  // ----- laws -----

  /** Setting a header is seen by that name, and by no other. */
  lemma {:induction false} GetAfterSet(headers: seq<Header>, name: string, value: string, other: string)
    ensures FindHeader(SetIn(headers, name, value), other)
         == if EqIgnoreAsciiCase(name, other) then Some(value) else FindHeader(headers, other)
  {
    hide Lower;
    if headers == [] {
      assert [(name, value)][1..] == [];
      assert FindHeader([(name, value)], other)
          == if EqIgnoreAsciiCase(name, other) then Some(value) else FindHeader([], other);
    } else if EqIgnoreAsciiCase(headers[0].0, name) {
      assert SetIn(headers, name, value)[1..] == headers[1..];
    } else {
      GetAfterSet(headers[1..], name, value, other);
      assert SetIn(headers, name, value)[1..] == SetIn(headers[1..], name, value);
    }
  }

  lemma {:induction false} ValuesAfterSet(headers: seq<Header>, name: string, value: string, other: string)
    requires !EqIgnoreAsciiCase(name, other)
    ensures ValuesOf(SetIn(headers, name, value), other) == ValuesOf(headers, other)
  {
    hide Lower;
    if headers == [] {
      assert [(name, value)][1..] == [];
      assert ValuesOf([(name, value)], other) == ValuesOf([], other);
    } else if EqIgnoreAsciiCase(headers[0].0, name) {
      assert SetIn(headers, name, value)[1..] == headers[1..];
    } else {
      ValuesAfterSet(headers[1..], name, value, other);
      assert SetIn(headers, name, value)[1..] == SetIn(headers[1..], name, value);
    }
  }

  /** Removing a name leaves every other name's values as they are. */
  lemma {:induction false} ValuesAfterRemove(headers: seq<Header>, name: string, other: string)
    ensures ValuesOf(RemoveIn(headers, name), other)
         == if EqIgnoreAsciiCase(name, other) then [] else ValuesOf(headers, other)
  {
    hide Lower;
    if headers != [] {
      var r, rest := RemoveIn(headers, name), RemoveIn(headers[1..], name);
      ValuesAfterRemove(headers[1..], name, other);
      if EqIgnoreAsciiCase(headers[0].0, name) {
        assert r == rest;
      } else {
        assert r[1..] == rest;
      }
    }
  }

  /** The first header of a name gets its value where it stands, under the name that it has. */
  lemma {:induction false} SetInPlace(a: seq<Header>, h: Header, b: seq<Header>, name: string, value: string)
    requires EqIgnoreAsciiCase(h.0, name) && forall k | 0 <= k < |a| :: !EqIgnoreAsciiCase(a[k].0, name)
    ensures SetIn(a + [h] + b, name, value) == a + [(h.0, value)] + b
  {
    hide Lower;
    var all := a + [h] + b;
    if a == [] {
      assert all[0] == h && all[1..] == b;
    } else {
      assert all[0] == a[0] && all[1..] == a[1..] + [h] + b;
      SetInPlace(a[1..], h, b, name, value);
      assert a == [a[0]] + a[1..];
    }
  }

  /** After a removal it does not matter what was set. */
  lemma {:induction false} RemoveAfterSet(headers: seq<Header>, name: string, value: string)
    ensures RemoveIn(SetIn(headers, name, value), name) == RemoveIn(headers, name)
  {
    hide Lower;
    if headers == [] {
      assert [(name, value)][1..] == [];
      assert RemoveIn([(name, value)], name) == RemoveIn([], name);
    } else if EqIgnoreAsciiCase(headers[0].0, name) {
      assert SetIn(headers, name, value)[1..] == headers[1..];
    } else {
      RemoveAfterSet(headers[1..], name, value);
      assert SetIn(headers, name, value)[1..] == SetIn(headers[1..], name, value);
    }
  }

  lemma ValuesFirst(headers: seq<Header>, name: string)
    ensures
      ValuesOf(headers, name)
      == if headers == [] then []
         else (if EqIgnoreAsciiCase(headers[0].0, name) then [headers[0].1] else []) + ValuesOf(headers[1..], name)
  {
    hide EqIgnoreAsciiCase;
  }

  lemma {:induction false} ValuesAppend(a: seq<Header>, b: seq<Header>, name: string)
    ensures ValuesOf(a + b, name) == ValuesOf(a, name) + ValuesOf(b, name)
  {
    hide ValuesOf;
    ValuesFirst(a, name);
    ValuesFirst(a + b, name);
    if a == [] {
      assert a + b == b;
    } else {
      assert (a + b)[1..] == a[1..] + b;
      ValuesAppend(a[1..], b, name);
    }
  }

  lemma {:induction false} RemoveAppend(a: seq<Header>, b: seq<Header>, name: string)
    ensures RemoveIn(a + b, name) == RemoveIn(a, name) + RemoveIn(b, name)
  {
    hide Lower;
    if a == [] {
      assert a + b == b;
    } else {
      assert (a + b)[1..] == a[1..] + b;
      RemoveAppend(a[1..], b, name);
    }
  }

  /** The first value is the one found. */
  lemma {:induction false} FindIsFirst(headers: seq<Header>, name: string)
    ensures
      var values := ValuesOf(headers, name);
      FindHeader(headers, name) == if values == [] then None else Some(values[0])
  {
    if headers != [] {
      FindIsFirst(headers[1..], name);
    }
  }

  lemma {:induction false} AbsentIsAppended(headers: seq<Header>, name: string, value: string)
    requires !Contains(headers, name)
    ensures SetIn(headers, name, value) == headers + [(name, value)]
    ensures RemoveIn(headers, name) == headers
  {
    hide Lower;
    if headers != [] {
      AbsentIsAppended(headers[1..], name, value);
      assert headers == [headers[0]] + headers[1..];
    }
  }

  /** A header set where there was none can be taken away again. */
  lemma RemoveUndoesSet(headers: seq<Header>, name: string, value: string)
    requires !Contains(headers, name)
    ensures RemoveIn(SetIn(headers, name, value), name) == headers
  {
    hide Lower;
    AbsentIsAppended(headers, name, value);
    RemoveAppend(headers, [(name, value)], name);
    assert [(name, value)][1..] == [] && RemoveIn([(name, value)], name) == [];
  }
}
