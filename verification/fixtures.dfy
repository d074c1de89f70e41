/** The examples of the repository's test file, and a few further concrete
    cases, checked against the model.
    Instant parsing stays a parameter: the examples only need the 2023 date
    to parse to an earlier instant than the 2024 one. */
module Fixtures {
  import opened Wrappers
  import opened Text
  import opened Records
  import opened Comparator
  import opened Codec
  import opened StableSort
  import opened ClientList

  function Alice(): Client { NewClient("1", "Alice", "a@x", "2024-01-01", "2024-06-01", "Active") }
  function Bob(): Client { NewClient("2", "bob", "b@x", "2023-01-01", "2024-07-01", "Prospect") }
  function Charlie(): Client { NewClient("3", "Charlie", "c@x", "2024-01-01", "2024-05-01", "Active") }

  function Sample(): seq<Client> { [Alice(), Bob(), Charlie()] }

  // The three sorts below only need the comparator's verdicts on the three
  // pairs; these lemmas run the insertion sort on three abstract elements.

  lemma InsertFront<T>(x: T, s: seq<T>, cmp: (T, T) -> int)
    requires |s| > 0 && cmp(x, s[0]) <= 0
    ensures Insert(x, s, cmp) == [x] + s
  {
  }

  lemma SortThree<T>(s: seq<T>, cmp: (T, T) -> int)
    requires |s| == 3
    ensures Sort(s, cmp) == Insert(s[0], Insert(s[1], [s[2]], cmp), cmp)
  {
    assert s[1..][1..][1..] == [];
    assert Sort(s[1..][1..], cmp) == [s[2]];
  }

  lemma KeepsThree<T>(a: T, b: T, c: T, cmp: (T, T) -> int)
    requires cmp(b, c) <= 0 && cmp(a, b) <= 0
    ensures Sort([a, b, c], cmp) == [a, b, c]
  {
    SortThree([a, b, c], cmp);
    InsertFront(b, [c], cmp);
    assert [b] + [c] == [b, c];
    InsertFront(a, [b, c], cmp);
    assert [a] + [b, c] == [a, b, c];
  }

  lemma ReversesThree<T>(a: T, b: T, c: T, cmp: (T, T) -> int)
    requires cmp(b, c) > 0 && cmp(a, c) > 0 && cmp(a, b) > 0
    ensures Sort([a, b, c], cmp) == [c, b, a]
  {
    SortThree([a, b, c], cmp);
    InsertAfterOne(b, c, cmp);
    InsertAfterTwo(a, c, b, cmp);
  }

  lemma SecondFirstOfThree<T>(a: T, b: T, c: T, cmp: (T, T) -> int)
    requires cmp(b, c) <= 0 && cmp(a, b) > 0 && cmp(a, c) <= 0
    ensures Sort([a, b, c], cmp) == [b, a, c]
  {
    SortThree([a, b, c], cmp);
    InsertFront(b, [c], cmp);
    InsertBetween(a, b, c, cmp);
  }

  lemma InsertAfterOne<T>(x: T, y: T, cmp: (T, T) -> int)
    requires cmp(x, y) > 0
    ensures Insert(x, [y], cmp) == [y, x]
  {
    InsertPast(x, [y], cmp);
    assert [y][1..] == [];
  }

  lemma InsertAfterTwo<T>(x: T, y: T, z: T, cmp: (T, T) -> int)
    requires cmp(x, y) > 0 && cmp(x, z) > 0
    ensures Insert(x, [y, z], cmp) == [y, z, x]
  {
    InsertPast(x, [y, z], cmp);
    assert [y, z][1..] == [z];
    InsertAfterOne(x, z, cmp);
  }

  lemma InsertBetween<T>(x: T, y: T, z: T, cmp: (T, T) -> int)
    requires cmp(x, y) > 0 && cmp(x, z) <= 0
    ensures Insert(x, [y, z], cmp) == [y, x, z]
  {
    InsertPast(x, [y, z], cmp);
    assert [y, z][1..] == [z];
    InsertFront(x, [z], cmp);
  }

  lemma NameOrder(d: Direction, parse: string -> Option<int>)
    ensures CompareOn(Criterion("c1", "name", d), Alice(), Bob(), parse) == Signed(d, -1)
    ensures CompareOn(Criterion("c1", "name", d), Bob(), Charlie(), parse) == Signed(d, -1)
    ensures CompareOn(Criterion("c1", "name", d), Alice(), Charlie(), parse) == Signed(d, -1)
  {
    FieldKinds();
    assert Lower("Alice") == "alice";
    assert Lower("bob") == "bob";
    assert Lower("Charlie") == "charlie";
    assert Less("alice", "bob") && Less("bob", "charlie") && Less("alice", "charlie");
  }

  /** Sorting by name ascending ignores case: Alice, bob, Charlie. */
  lemma SortsByNameAsc(parse: string -> Option<int>)
    ensures DisplayedRows(Sample(), [Criterion("c1", "name", Asc)], parse) == [Alice(), Bob(), Charlie()]
  {
    var cs := [Criterion("c1", "name", Asc)];
    var cmp := Cmp(cs, parse);
    NameOrder(Asc, parse);
    assert cmp(Bob(), Charlie()) == -1 && cmp(Alice(), Bob()) == -1;
    KeepsThree(Alice(), Bob(), Charlie(), cmp);
  }

  /** Sorting by name descending: Charlie, bob, Alice. */
  lemma SortsByNameDesc(parse: string -> Option<int>)
    ensures DisplayedRows(Sample(), [Criterion("c1", "name", Desc)], parse) == [Charlie(), Bob(), Alice()]
  {
    var cs := [Criterion("c1", "name", Desc)];
    var cmp := Cmp(cs, parse);
    NameOrder(Desc, parse);
    assert cmp(Bob(), Charlie()) == 1 && cmp(Alice(), Charlie()) == 1 && cmp(Alice(), Bob()) == 1;
    ReversesThree(Alice(), Bob(), Charlie(), cmp);
  }

  lemma DateOrder(parse: string -> Option<int>)
    requires parse("2023-01-01").Some? && parse("2024-01-01").Some?
    requires parse("2023-01-01").value < parse("2024-01-01").value
    ensures CompareOn(Criterion("c1", "createdAt", Asc), Bob(), Charlie(), parse) == -1
    ensures CompareOn(Criterion("c1", "createdAt", Asc), Alice(), Bob(), parse) == 1
    ensures CompareOn(Criterion("c1", "createdAt", Asc), Alice(), Charlie(), parse) == 0
  {
    FieldKinds();
    assert Get(Alice(), "createdAt") == Some("2024-01-01");
    assert Get(Bob(), "createdAt") == Some("2023-01-01");
    assert Get(Charlie(), "createdAt") == Some("2024-01-01");
  }

  lemma CreatedThenNameOrder(cs: seq<Criterion>, parse: string -> Option<int>)
    requires cs == [Criterion("c1", "createdAt", Asc), Criterion("c2", "name", Asc)]
    requires parse("2023-01-01").Some? && parse("2024-01-01").Some?
    requires parse("2023-01-01").value < parse("2024-01-01").value
    ensures Compare(cs, Bob(), Charlie(), parse) == -1
    ensures Compare(cs, Alice(), Bob(), parse) == 1
    ensures Compare(cs, Alice(), Charlie(), parse) == -1
  {
    DateOrder(parse);
    NameOrder(Asc, parse);
    assert cs[1..] == [Criterion("c2", "name", Asc)];
    assert Compare(cs[1..], Alice(), Charlie(), parse) == -1;
  }

  /** Sorting by creation time, then name: the 2023 client first, then the
      two 2024 clients, Alice before Charlie. */
  lemma SortsByCreatedAtThenName(parse: string -> Option<int>)
    requires parse("2023-01-01").Some? && parse("2024-01-01").Some?
    requires parse("2023-01-01").value < parse("2024-01-01").value
    ensures DisplayedRows(Sample(), [Criterion("c1", "createdAt", Asc), Criterion("c2", "name", Asc)], parse)
            == [Bob(), Alice(), Charlie()]
  {
    var cs := [Criterion("c1", "createdAt", Asc), Criterion("c2", "name", Asc)];
    var cmp := Cmp(cs, parse);
    CreatedThenNameOrder(cs, parse);
    assert cmp(Bob(), Charlie()) == -1 && cmp(Alice(), Bob()) == 1 && cmp(Alice(), Charlie()) == -1;
    SecondFirstOfThree(Alice(), Bob(), Charlie(), cmp);
  }

  /** Text fields compare without regard to case. */
  lemma CaseInsensitiveTie(parse: string -> Option<int>, d: Direction)
    ensures CompareOn(Criterion("c", "name", d), Client(map["name" := "bob"]), Client(map["name" := "BOB"]), parse) == 0
  {
    FieldKinds();
    assert Lower("BOB") == "bob" == Lower("bob");
  }

  /** The criteria of the parsing example. */
  function NameThenCreated(): seq<Criterion> {
    [Criterion("a", "name", Asc), Criterion("b", "createdAt", Desc)]
  }

  lemma NameThenCreatedKeys()
    ensures Keys(NameThenCreated()) == [("name", Asc), ("createdAt", Desc)]
    ensures forall i :: 0 <= i < |NameThenCreated()| ==> SafeField(NameThenCreated()[i].field)
  {
    var cs := NameThenCreated();
    var k := Keys(cs);
    assert k[0] == ("name", Asc) && k[1] == ("createdAt", Desc);
    assert SafeField(cs[0].field) && SafeField(cs[1].field);
  }

  lemma NameThenCreatedTokens()
    ensures Tokens(NameThenCreated()) == ["name.asc", "createdAt.desc"]
  {
    var cs := NameThenCreated();
    assert Asc.Token() == "asc" && Desc.Token() == "desc";
    assert Token(cs[0]) == "name" + "." + "asc" == "name.asc";
    assert Token(cs[1]) == "createdAt" + "." + "desc" == "createdAt.desc";
    var ts := Tokens(cs);
    assert ts[0] == "name.asc" && ts[1] == "createdAt.desc";
  }

  /** The two criteria serialize to `name.asc,createdAt.desc`. */
  lemma SerializesCriteria()
    ensures Serialize(NameThenCreated()) == "name.asc,createdAt.desc"
  {
    var cs := NameThenCreated();
    NameThenCreatedTokens();
    JoinTwo("name.asc", "createdAt.desc", ',');
    assert "name.asc" + [','] + "createdAt.desc" == "name.asc,createdAt.desc";
  }

  lemma JoinTwo(p: string, q: string, d: char)
    ensures Join([p, q], d) == p + [d] + q
  {
    assert [p, q][1..] == [q];
  }

  /** Four pieces, the second and the last empty. */
  lemma JoinSkipped(a: string, b: string, e: string, d: char)
    requires e == []
    ensures Join([a, e, b, e], d) == a + [d] + [d] + b + [d]
  {
    var ps := [a, e, b, e];
    assert ps[1..] == [e, b, e] && ps[1..][1..] == [b, e];
    JoinTwo(b, e, d);
    assert Join([e, b, e], d) == e + [d] + Join([b, e], d);
  }

  // A `...Value` lemma receives its literal through a parameter fixed by a
  // `requires`, so that the verifier does not unfold the recursive string
  // functions on the literal itself; the lemma without the suffix applies it.

  lemma ParsesSerialized(param: string, clock: nat -> nat)
    requires param == Serialize(NameThenCreated())
    ensures Keys(Parse(param, clock)) == Keys(NameThenCreated())
  {
    NameThenCreatedKeys();
    RoundTrip(NameThenCreated(), clock);
  }

  lemma ParsesUrlParamValue(param: string, clock: nat -> nat)
    requires param == "name.asc,createdAt.desc"
    ensures Keys(Parse(param, clock)) == [("name", Asc), ("createdAt", Desc)]
  {
    SerializesCriteria();
    ParsesSerialized(param, clock);
    NameThenCreatedKeys();
  }

  /** `name.asc,createdAt.desc` parses to two criteria with those fields and directions. */
  lemma ParsesUrlParam(clock: nat -> nat)
    ensures Keys(Parse("name.asc,createdAt.desc", clock)) == [("name", Asc), ("createdAt", Desc)]
  {
    ParsesUrlParamValue("name.asc,createdAt.desc", clock);
  }

  lemma SplitSkipEmpty(param: string)
    requires param == "name.asc,,createdAt.desc,"
    ensures Split(param, ',') == ["name.asc", "", "createdAt.desc", ""]
  {
    SplitSkipped(param, "name.asc", "createdAt.desc", "", ',');
  }

  lemma SplitSkipped(s: string, a: string, b: string, e: string, d: char)
    requires e == [] && d !in a && d !in b
    requires s == a + [d] + [d] + b + [d]
    ensures Split(s, d) == [a, e, b, e]
  {
    JoinSkipped(a, b, e, d);
    SplitJoin([a, e, b, e], d);
  }

  // Keep, Drop and DropEmpty evaluate `NonEmptyTrimmed` one piece at a time,
  // and SkippedPieces applies them to the four pieces of the fixture.

  lemma Keep(a: string, rest: seq<string>, r: seq<string>)
    requires a != "" && Trimmed(a) && NonEmptyTrimmed(rest) == r
    ensures NonEmptyTrimmed([a] + rest) == [a] + r
  {
    TrimOfTrimmed(a);
    assert ([a] + rest)[1..] == rest;
  }
  lemma Drop(e: string, rest: seq<string>, r: seq<string>)
    requires e == [] && NonEmptyTrimmed(rest) == r
    ensures NonEmptyTrimmed([e] + rest) == r
  {
    assert Trim(e) == [];
    assert ([e] + rest)[1..] == rest;
  }
  lemma DropEmpty(a: string, e: string, b: string)
    requires a != "" && Trimmed(a) && b != "" && Trimmed(b) && e == []
    ensures NonEmptyTrimmed([a] + ([e] + ([b] + [e]))) == [a, b]
  {
    var empty: seq<string> := [];
    var s1 := [e];
    var s2 := [b] + s1;
    var s3 := [e] + s2;
    Drop(e, empty, empty);
    assert [e] + empty == s1;
    Keep(b, s1, empty);
    assert [b] + empty == [b];
    Drop(e, s2, [b]);
    Keep(a, s3, [b]);
  }

  lemma SkippedPieces(ps: seq<string>, a: string, b: string)
    requires a == "name.asc" && b == "createdAt.desc"
    requires ps == [a, "", b, ""]
    ensures NonEmptyTrimmed(ps) == [a, b]
  {
    var e := "";
    assert Trimmed(a) && Trimmed(b);
    assert ps == [a] + ([e] + ([b] + [e]));
    DropEmpty(a, e, b);
  }

  lemma SegmentsSkipEmpty(param: string)
    requires param == "name.asc,,createdAt.desc,"
    ensures Segments(param) == Tokens(NameThenCreated())
  {
    SplitSkipEmpty(param);
    NameThenCreatedTokens();
    SkippedPieces(Split(param, ','), "name.asc", "createdAt.desc");
  }

  lemma SkipsEmptySegmentsValue(param: string, clock: nat -> nat)
    requires param == "name.asc,,createdAt.desc,"
    ensures Keys(Parse(param, clock)) == [("name", Asc), ("createdAt", Desc)]
  {
    SegmentsSkipEmpty(param);
    NameThenCreatedKeys();
    ParseOfTokens(param, NameThenCreated(), clock);
  }

  /** Empty segments are skipped: `name.asc,,createdAt.desc,` gives two criteria. */
  lemma SkipsEmptySegments(clock: nat -> nat)
    ensures Keys(Parse("name.asc,,createdAt.desc,", clock)) == [("name", Asc), ("createdAt", Desc)]
  {
    SkipsEmptySegmentsValue("name.asc,,createdAt.desc,", clock);
  }

  /** `,,,` parses to nothing, so the stored list is used on load. */
  lemma CommasOnlyFallBack(stored: Option<seq<Criterion>>, clock: nat -> nat)
    ensures LoadCriteria(Some(",,,"), stored, clock) == stored.GetOr([])
  {
    CommasOnlyFallBackValue(",,,", stored, clock);
  }

  lemma CommasOnlyFallBackValue(p: string, stored: Option<seq<Criterion>>, clock: nat -> nat)
    requires p == ",,,"
    ensures LoadCriteria(Some(p), stored, clock) == stored.GetOr([])
  {
    assert seq(3, _ => ',') == p;
    SeparatorsFallBack(3, stored, clock);
  }
}
