/**
 * An abstract JSON value and its serialised form.
 *
 * The store keeps `params` and `result` as JSON text.  The text is modelled
 * at the level of the lexical tokens of RFC 8259 (section 2: the six
 * structural characters and the literal, number and string tokens); the
 * character-level spelling of a token (escapes, number formatting,
 * whitespace) is not modelled.  `Encode` plays the part of `json.dumps`,
 * `Decode` that of `json.loads`, and `DecodeEncoded` proves the round trip
 * that the store relies on.  Like `json.loads`, which builds a dictionary,
 * `Decode` keeps one member per name: a repeated name keeps the place of its
 * first occurrence and takes the value of its last (`Dedup`).  The round trip
 * therefore holds for the values a dictionary can hold, those whose objects
 * have distinct names (`WellNamed`).
 */
module Json {
  import opened Wrappers

  datatype Json =
    | JNull
    | JBool(b: bool)
    | JNumber(n: int)
    | JString(s: string)
    | JArray(items: seq<Json>)
    | JObject(members: seq<Member>)

  /** One name/value pair of an object, in the order written. */
  datatype Member = Member(name: string, value: Json)

  /** No two members of the list share a name. */
  predicate DistinctNames(members: seq<Member>) {
    forall i, j :: 0 <= i < j < |members| ==> members[i].name != members[j].name
  }

  /** Every object in the value, at any depth, has distinct member names. */
  predicate WellNamed(v: Json)
    decreases v
  {
    match v
    case JArray(items) => forall i :: 0 <= i < |items| ==> WellNamed(items[i])
    case JObject(members) =>
      DistinctNames(members) && forall i :: 0 <= i < |members| ==> WellNamed(members[i].value)
    case _ => true
  }

  predicate ValuesWellNamed(members: seq<Member>) {
    forall i :: 0 <= i < |members| ==> WellNamed(members[i].value)
  }

  /** A JSON object that a dictionary can hold: the values of a task's `params` and `result`. */
  type JsonMapping = v: Json | v.JObject? && WellNamed(v) witness JObject([])

  /** The position of the member with that name, or -1 when there is none. */
  function IndexOfName(members: seq<Member>, name: string): (k: int)
    ensures -1 <= k < |members|
    ensures k >= 0 ==> members[k].name == name
    ensures k < 0 ==> forall i :: 0 <= i < |members| ==> members[i].name != name
  {
    if members == [] then -1
    else if members[0].name == name then 0
    else
      var k := IndexOfName(members[1..], name);
      if k < 0 then -1 else k + 1
  }

  /**
   * One assignment into a dictionary: a name already present keeps its place
   * and takes the new value; a new name goes at the end.
   */
  function Insert(members: seq<Member>, m: Member): (r: seq<Member>)
    requires DistinctNames(members)
    ensures DistinctNames(r)
    ensures ValuesWellNamed(members) && WellNamed(m.value) ==> ValuesWellNamed(r)
  {
    var k := IndexOfName(members, m.name);
    if k < 0 then members + [m] else members[k := m]
  }

  /** The dictionary built from the members of an object, in the order written. */
  function Dedup(members: seq<Member>): (r: seq<Member>)
    ensures DistinctNames(r)
    ensures ValuesWellNamed(members) ==> ValuesWellNamed(r)
    decreases |members|
  {
    if members == [] then []
    else Insert(Dedup(members[..|members| - 1]), members[|members| - 1])
  }

  /** A member list whose names are already distinct is its own dictionary. */
  lemma {:induction false} DedupDistinct(members: seq<Member>)
    requires DistinctNames(members)
    ensures Dedup(members) == members
    decreases |members|
  {
    if members != [] {
      var init := members[..|members| - 1];
      var last := members[|members| - 1];
      DedupDistinct(init);
      assert IndexOfName(init, last.name) < 0;
      assert init + [last] == members;
    }
  }

  /** The position of the last member with that name, or -1 when there is none. */
  function LastIndexOfName(members: seq<Member>, name: string): (k: int)
    ensures -1 <= k < |members|
    ensures k >= 0 ==> members[k].name == name && forall j :: k < j < |members| ==> members[j].name != name
    ensures k < 0 ==> forall i :: 0 <= i < |members| ==> members[i].name != name
    decreases |members|
  {
    if members == [] then -1
    else if members[|members| - 1].name == name then |members| - 1
    else LastIndexOfName(members[..|members| - 1], name)
  }

  /**
   * What a dictionary built from the members returns for `name`: the value of
   * the last member with that name, or None when no member has it.
   */
  function ValueOf(members: seq<Member>, name: string): Option<Json> {
    var k := LastIndexOfName(members, name);
    if k < 0 then None else Some(members[k].value)
  }

  /** In a list with distinct names, the value for a name is the one member carrying it. */
  lemma ValueOfDistinct(members: seq<Member>, i: int)
    requires DistinctNames(members) && 0 <= i < |members|
    ensures ValueOf(members, members[i].name) == Some(members[i].value)
  {
    var k := LastIndexOfName(members, members[i].name);
    assert k == i;
  }

  /** One assignment into a dictionary sets the value for its name and no other. */
  lemma InsertValueOf(members: seq<Member>, m: Member, name: string)
    requires DistinctNames(members)
    ensures ValueOf(Insert(members, m), name) == if m.name == name then Some(m.value) else ValueOf(members, name)
  {
    var r := Insert(members, m);
    var k := IndexOfName(members, m.name);
    if k < 0 {
      assert r[..|r| - 1] == members;
    } else if m.name == name {
      assert r[k] == m;
      ValueOfDistinct(r, k);
    } else {
      assert forall i :: 0 <= i < |r| ==> r[i].name == members[i].name;
      if ValueOf(members, name).Some? {
        var i :| 0 <= i < |members| && members[i].name == name;
        assert r[i] == members[i];
        ValueOfDistinct(members, i);
        ValueOfDistinct(r, i);
      }
    }
  }

  /**
   * The dictionary rule over all member lists: a name is present in
   * `Dedup(members)` exactly when some member has it, and then it carries the
   * value of the last such member.
   */
  lemma {:induction false} DedupKeepsLastValue(members: seq<Member>, name: string)
    ensures ValueOf(Dedup(members), name) == ValueOf(members, name)
    decreases |members|
  {
    if members != [] {
      var init := members[..|members| - 1];
      var last := members[|members| - 1];
      DedupKeepsLastValue(init, name);
      InsertValueOf(Dedup(init), last, name);
    }
  }

  /** Appending a member moves no name's first position, and places a new name last. */
  lemma {:induction false} IndexOfNameAppend(members: seq<Member>, m: Member, name: string)
    ensures IndexOfName(members + [m], name) ==
      if IndexOfName(members, name) >= 0 then IndexOfName(members, name)
      else if m.name == name then |members| else -1
    decreases |members|
  {
    if members != [] {
      assert (members + [m])[1..] == members[1..] + [m];
      IndexOfNameAppend(members[1..], m, name);
    }
  }

  /** Every name of the dictionary is the name of some member. */
  lemma DedupNameOccurs(members: seq<Member>, i: int)
    requires 0 <= i < |Dedup(members)|
    ensures IndexOfName(members, Dedup(members)[i].name) >= 0
  {
    ValueOfDistinct(Dedup(members), i);
    DedupKeepsLastValue(members, Dedup(members)[i].name);
  }

  /**
   * The dictionary keeps the names in the order of their first occurrence:
   * of two names in `Dedup(members)`, the earlier one first occurs earlier.
   */
  lemma {:induction false} DedupKeepsFirstOrder(members: seq<Member>)
    ensures forall i, j :: 0 <= i < j < |Dedup(members)| ==>
      IndexOfName(members, Dedup(members)[i].name) < IndexOfName(members, Dedup(members)[j].name)
    decreases |members|
  {
    if members != [] {
      var init := members[..|members| - 1];
      var last := members[|members| - 1];
      assert init + [last] == members;
      var d := Dedup(init);
      DedupKeepsFirstOrder(init);
      var r := Dedup(members);
      assert r == Insert(d, last);
      forall i | 0 <= i < |d|
        ensures IndexOfName(members, d[i].name) == IndexOfName(init, d[i].name) >= 0
      {
        DedupNameOccurs(init, i);
        IndexOfNameAppend(init, last, d[i].name);
      }
      var k := IndexOfName(d, last.name);
      if k < 0 {
        assert ValueOf(d, last.name) == None;
        DedupKeepsLastValue(init, last.name);
        IndexOfNameAppend(init, last, last.name);
        assert r == d + [last];
        forall i, j | 0 <= i < j < |r|
          ensures IndexOfName(members, r[i].name) < IndexOfName(members, r[j].name)
        {
          if j == |d| {
            assert r[i] == d[i];
          } else {
            assert r[i] == d[i] && r[j] == d[j];
          }
        }
      } else {
        assert r == d[k := last];
        assert forall i :: 0 <= i < |r| ==> r[i].name == d[i].name;
      }
    }
  }

  datatype Token =
    | NullToken
    | TrueToken
    | FalseToken
    | NumberToken(n: int)
    | StringToken(s: string)
    | BeginArray
    | EndArray
    | BeginObject
    | EndObject
    | NameSeparator
    | ValueSeparator

  /** The serialisation of a value, in the token form of RFC 8259. */
  function Encode(v: Json): seq<Token>
    decreases v
  {
    match v
    case JNull => [NullToken]
    case JBool(b) => [if b then TrueToken else FalseToken]
    case JNumber(n) => [NumberToken(n)]
    case JString(s) => [StringToken(s)]
    case JArray(items) =>
      if items == [] then [BeginArray, EndArray]
      else [BeginArray] + EncodeElements(items) + [EndArray]
    case JObject(members) =>
      if members == [] then [BeginObject, EndObject]
      else [BeginObject] + EncodeMembers(members) + [EndObject]
  }

  /** Non-empty list of values separated by value separators. */
  function EncodeElements(items: seq<Json>): seq<Token>
    requires items != []
    decreases items
  {
    if |items| == 1 then Encode(items[0])
    else Encode(items[0]) + [ValueSeparator] + EncodeElements(items[1..])
  }

  /** Non-empty list of `name : value` pairs separated by value separators. */
  function EncodeMembers(members: seq<Member>): seq<Token>
    requires members != []
    decreases members
  {
    var head := [StringToken(members[0].name), NameSeparator] + Encode(members[0].value);
    if |members| == 1 then head
    else head + [ValueSeparator] + EncodeMembers(members[1..])
  }

  /**
   * Parses one value from the front of `ts` and returns it with the tokens
   * that follow it; None when `ts` does not start with a value.
   */
  function ParseValue(ts: seq<Token>): (r: Option<(Json, seq<Token>)>)
    ensures r.Some? ==> |r.value.1| < |ts| && WellNamed(r.value.0)
    decreases |ts|, 0
  {
    if ts == [] then None
    else match ts[0]
      case NullToken => Some((JNull, ts[1..]))
      case TrueToken => Some((JBool(true), ts[1..]))
      case FalseToken => Some((JBool(false), ts[1..]))
      case NumberToken(n) => Some((JNumber(n), ts[1..]))
      case StringToken(s) => Some((JString(s), ts[1..]))
      case BeginArray =>
        if |ts| > 1 && ts[1] == EndArray then Some((JArray([]), ts[2..]))
        else (match ParseElements(ts[1..])
              case None => None
              case Some((items, rest)) => Some((JArray(items), rest)))
      case BeginObject =>
        if |ts| > 1 && ts[1] == EndObject then Some((JObject([]), ts[2..]))
        else (match ParseMembers(ts[1..])
              case None => None
              case Some((members, rest)) => Some((JObject(Dedup(members)), rest)))
      case _ => None
  }

  /** Parses `value (, value)* ]` and returns the values and what follows `]`. */
  function ParseElements(ts: seq<Token>): (r: Option<(seq<Json>, seq<Token>)>)
    ensures r.Some? ==> |r.value.1| < |ts|
    ensures r.Some? ==> forall i :: 0 <= i < |r.value.0| ==> WellNamed(r.value.0[i])
    decreases |ts|, 1
  {
    match ParseValue(ts)
    case None => None
    case Some((v, rest)) =>
      if rest == [] then None
      else if rest[0] == EndArray then Some(([v], rest[1..]))
      else if rest[0] == ValueSeparator then
        (match ParseElements(rest[1..])
         case None => None
         case Some((vs, rest')) => Some(([v] + vs, rest')))
      else None
  }

  /** Parses `"name" : value (, "name" : value)* }` and returns the members and what follows `}`. */
  function ParseMembers(ts: seq<Token>): (r: Option<(seq<Member>, seq<Token>)>)
    ensures r.Some? ==> |r.value.1| < |ts| && ValuesWellNamed(r.value.0)
    decreases |ts|, 1
  {
    if |ts| < 2 || !ts[0].StringToken? || ts[1] != NameSeparator then None
    else match ParseValue(ts[2..])
      case None => None
      case Some((v, rest)) =>
        var m := Member(ts[0].s, v);
        if rest == [] then None
        else if rest[0] == EndObject then Some(([m], rest[1..]))
        else if rest[0] == ValueSeparator then
          (match ParseMembers(rest[1..])
           case None => None
           case Some((ms, rest')) => Some(([m] + ms, rest')))
        else None
  }

  /** `json.loads`: the whole text must be exactly one value. */
  function Decode(text: seq<Token>): (r: Option<Json>)
    ensures r.Some? ==> ParseValue(text) == Some((r.value, [])) && WellNamed(r.value)
    ensures r.None? ==> ParseValue(text).None? || ParseValue(text).value.1 != []
  {
    match ParseValue(text)
    case Some((v, rest)) => if rest == [] then Some(v) else None
    case None => None
  }

  /**
   * Parsing the serialisation of a value whose objects have distinct names,
   * followed by anything, gives back the value and that remainder.
   */
  lemma {:induction false} ParseEncoded(v: Json, rest: seq<Token>)
    requires WellNamed(v)
    ensures ParseValue(Encode(v) + rest) == Some((v, rest))
    decreases v
  {
    var ts := Encode(v) + rest;
    match v
    case JArray(items) =>
      if items != [] {
        var inner := EncodeElements(items) + [EndArray] + rest;
        assert ts == [BeginArray] + inner;
        assert ts[1..] == inner;
        EncodeElementsStart(items);
        ParseEncodedElements(items, rest);
      } else {
        assert ts[2..] == rest;
      }
    case JObject(members) =>
      if members != [] {
        var inner := EncodeMembers(members) + [EndObject] + rest;
        assert ts == [BeginObject] + inner;
        assert ts[1..] == inner;
        ParseEncodedMembers(members, rest);
        DedupDistinct(members);
        ParseObjectStep(ts, members, rest);
      } else {
        assert ts[2..] == rest;
      }
    case _ =>
      assert ts[1..] == rest;
  }

  lemma EncodeElementsStart(items: seq<Json>)
    requires items != []
    ensures EncodeElements(items) != [] && EncodeElements(items)[0] != EndArray
  {
  }

  /** One step of `ParseElements`: a value, then `]` or `,`. */
  lemma ParseElementsStep(ts: seq<Token>, v: Json, tail: seq<Token>)
    requires ParseValue(ts) == Some((v, tail))
    ensures tail != [] && tail[0] == EndArray ==> ParseElements(ts) == Some(([v], tail[1..]))
    ensures tail != [] && tail[0] == ValueSeparator && ParseElements(tail[1..]).Some? ==>
      ParseElements(ts) == Some(([v] + ParseElements(tail[1..]).value.0, ParseElements(tail[1..]).value.1))
  {
  }

  lemma {:induction false} ParseEncodedElements(items: seq<Json>, rest: seq<Token>)
    requires items != [] && forall i :: 0 <= i < |items| ==> WellNamed(items[i])
    ensures ParseElements(EncodeElements(items) + [EndArray] + rest) == Some((items, rest))
    decreases items
  {
    var v := items[0];
    var ts := EncodeElements(items) + [EndArray] + rest;
    if |items| == 1 {
      var tail := [EndArray] + rest;
      assert ts == Encode(v) + tail;
      ParseEncoded(v, tail);
      ParseElementsStep(ts, v, tail);
      assert [v] == items;
    } else {
      var more := EncodeElements(items[1..]) + [EndArray] + rest;
      var tail := [ValueSeparator] + more;
      assert EncodeElements(items) == Encode(v) + [ValueSeparator] + EncodeElements(items[1..]);
      assert ts == Encode(v) + tail;
      ParseEncoded(v, tail);
      ParseEncodedElements(items[1..], rest);
      assert tail[1..] == more;
      ParseElementsStep(ts, v, tail);
      assert [v] + items[1..] == items;
    }
  }

  /** `ParseValue` on a non-empty object: the dictionary of its members. */
  lemma ParseObjectStep(ts: seq<Token>, members: seq<Member>, rest: seq<Token>)
    requires |ts| > 1 && ts[0] == BeginObject && ts[1] != EndObject
    requires ParseMembers(ts[1..]) == Some((members, rest))
    ensures ParseValue(ts) == Some((JObject(Dedup(members)), rest))
  {
  }

  /** One step of `ParseMembers`: a name, a separator and a value, then `}` or `,`. */
  lemma ParseMembersStep(ts: seq<Token>, name: string, v: Json, tail: seq<Token>)
    requires |ts| >= 2 && ts[0] == StringToken(name) && ts[1] == NameSeparator
    requires ParseValue(ts[2..]) == Some((v, tail))
    ensures tail != [] && tail[0] == EndObject ==>
      ParseMembers(ts) == Some(([Member(name, v)], tail[1..]))
    ensures tail != [] && tail[0] == ValueSeparator && ParseMembers(tail[1..]).Some? ==>
      ParseMembers(ts) == Some(([Member(name, v)] + ParseMembers(tail[1..]).value.0, ParseMembers(tail[1..]).value.1))
  {
  }

  lemma {:induction false} ParseEncodedMembers(members: seq<Member>, rest: seq<Token>)
    requires members != [] && ValuesWellNamed(members)
    ensures ParseMembers(EncodeMembers(members) + [EndObject] + rest) == Some((members, rest))
    decreases members
  {
    var m := members[0];
    var head := [StringToken(m.name), NameSeparator] + Encode(m.value);
    var ts := EncodeMembers(members) + [EndObject] + rest;
    if |members| == 1 {
      var tail := [EndObject] + rest;
      assert EncodeMembers(members) == head;
      assert ts[0] == StringToken(m.name) && ts[1] == NameSeparator;
      assert ts[2..] == Encode(m.value) + tail;
      ParseEncoded(m.value, tail);
      ParseMembersStep(ts, m.name, m.value, tail);
      assert [m] == members;
    } else {
      var more := EncodeMembers(members[1..]) + [EndObject] + rest;
      var tail := [ValueSeparator] + more;
      assert EncodeMembers(members) == head + [ValueSeparator] + EncodeMembers(members[1..]);
      assert ts[0] == StringToken(m.name) && ts[1] == NameSeparator;
      assert ts[2..] == Encode(m.value) + tail;
      ParseEncoded(m.value, tail);
      ParseEncodedMembers(members[1..], rest);
      assert tail[1..] == more;
      ParseMembersStep(ts, m.name, m.value, tail);
      assert [m] + members[1..] == members;
    }
  }

  /** `json.loads(json.dumps(v)) == v`: the round trip of the stored columns. */
  lemma DecodeEncoded(v: Json)
    requires WellNamed(v)
    ensures Decode(Encode(v)) == Some(v)
  {
    ParseEncoded(v, []);
    assert Encode(v) + [] == Encode(v);
  }

  /**
   * The text of the object `{"a": 1, "b": 2, "a": 3}` after its `{`, built up
   * from the last member: `"a": 3 }`, then `"b": 2, "a": 3 }`, then all of it.
   */
  function LastMemberText(): seq<Token> {
    [StringToken("a"), NameSeparator, NumberToken(3), EndObject]
  }
  function LastTwoMembersText(): seq<Token> {
    [StringToken("b"), NameSeparator, NumberToken(2), ValueSeparator] + LastMemberText()
  }
  function RepeatedNameMembersText(): seq<Token> {
    [StringToken("a"), NameSeparator, NumberToken(1), ValueSeparator] + LastTwoMembersText()
  }

  lemma ParseLastTwoMembers()
    ensures ParseMembers(LastTwoMembersText()) == Some(([Member("b", JNumber(2)), Member("a", JNumber(3))], []))
  {
    var tail3 := LastMemberText();
    assert tail3[2..] == [NumberToken(3), EndObject];
    assert ParseValue(tail3[2..]) == Some((JNumber(3), [EndObject]));
    ParseMembersStep(tail3, "a", JNumber(3), [EndObject]);
    var after := [ValueSeparator] + tail3;
    var ts := LastTwoMembersText();
    assert ts[2..] == [NumberToken(2)] + after && ts[3..] == after;
    assert ParseValue(ts[2..]) == Some((JNumber(2), after));
    assert after[1..] == tail3;
    ParseMembersStep(ts, "b", JNumber(2), after);
    assert [Member("b", JNumber(2))] + [Member("a", JNumber(3))] == [Member("b", JNumber(2)), Member("a", JNumber(3))];
  }

  lemma ParseRepeatedNameMembers()
    ensures ParseMembers(RepeatedNameMembersText()) ==
      Some(([Member("a", JNumber(1)), Member("b", JNumber(2)), Member("a", JNumber(3))], []))
  {
    ParseLastTwoMembers();
    var after := [ValueSeparator] + LastTwoMembersText();
    var ts := RepeatedNameMembersText();
    assert ts[0] == StringToken("a") && ts[1] == NameSeparator;
    assert ts[2..] == [NumberToken(1)] + after && ts[3..] == after;
    assert ParseValue(ts[2..]) == Some((JNumber(1), after));
    assert after[1..] == LastTwoMembersText();
    ParseMembersStep(ts, "a", JNumber(1), after);
    assert [Member("a", JNumber(1))] + [Member("b", JNumber(2)), Member("a", JNumber(3))]
        == [Member("a", JNumber(1)), Member("b", JNumber(2)), Member("a", JNumber(3))];
  }

  lemma DedupRepeatedName()
    ensures Dedup([Member("a", JNumber(1)), Member("b", JNumber(2)), Member("a", JNumber(3))])
         == [Member("a", JNumber(3)), Member("b", JNumber(2))]
  {
    var a1, b2, a3 := Member("a", JNumber(1)), Member("b", JNumber(2)), Member("a", JNumber(3));
    assert [a1, b2, a3][..2] == [a1, b2] && [a1, b2][..1] == [a1] && [a1][..0] == [];
    assert Dedup([a1]) == [a1];
    assert Dedup([a1, b2]) == [a1, b2];
    assert IndexOfName([a1, b2], "a") == 0;
  }

  /**
   * Text with a repeated name decodes as `json.loads` reads it:
   * `{"a": 1, "b": 2, "a": 3}` gives `{"a": 3, "b": 2}`.
   */
  lemma RepeatedNameKeepsLast()
    ensures Decode([BeginObject] + RepeatedNameMembersText())
         == Some(JObject([Member("a", JNumber(3)), Member("b", JNumber(2))]))
  {
    var ts := [BeginObject] + RepeatedNameMembersText();
    assert ts[1..] == RepeatedNameMembersText() && ts[1] == StringToken("a");
    ParseRepeatedNameMembers();
    ParseObjectStep(ts, [Member("a", JNumber(1)), Member("b", JNumber(2)), Member("a", JNumber(3))], []);
    DedupRepeatedName();
  }
}
