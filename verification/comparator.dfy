/** The comparator builder: a list of criteria in priority order becomes a
    three-way comparison of two clients. */
module Comparator {
  import opened Wrappers
  import opened Text
  import opened Records

  /** A field is compared as a point in time when its lower-cased name
      contains "at" -- `createdAt` and `updatedAt`, but also `status`. */
  predicate IsDateLike(f: string) {
    ContainsAt(Lower(f))
  }

  lemma DateLikeWitness(f: string, i: nat)
    requires i + 1 < |f| && ToLower(f[i]) == 'a' && ToLower(f[i + 1]) == 't'
    ensures IsDateLike(f)
  {
    var l := Lower(f);
    assert l[i] == 'a' && l[i + 1] == 't';
  }

  lemma NotDateLike(f: string)
    requires forall i :: 0 <= i < |f| - 1 ==> ToLower(f[i]) != 'a' || ToLower(f[i + 1]) != 't'
    ensures !IsDateLike(f)
  {
    var l := Lower(f);
    assert forall i :: 0 <= i < |l| - 1 ==> l[i] != 'a' || l[i + 1] != 't';
  }

  /** Which of the declared fields the comparator treats as instants. */
  lemma FieldKinds()
    ensures IsDateLike("createdAt") && IsDateLike("updatedAt") && IsDateLike("status")
    ensures !IsDateLike("name") && !IsDateLike("email") && !IsDateLike("id")
  {
    DateLikeWitness("createdAt", 7);
    DateLikeWitness("updatedAt", 7);
    DateLikeWitness("status", 2);
    NotDateLike("name");
    NotDateLike("email");
    NotDateLike("id");
  }

  /** `x > y` and `x < y` on two results of `getTime()`; `None` is NaN, for
      which both are false. */
  function CompareInstants(x: Option<int>, y: Option<int>): int {
    if x.Some? && y.Some? then
      if x.value > y.value then 1 else if x.value < y.value then -1 else 0
    else 0
  }

  /** `x > y` and `x < y` on two lower-cased strings. */
  function CompareText(x: string, y: string): int {
    if Less(y, x) then 1 else if Less(x, y) then -1 else 0
  }

  /** The ascending outcome of one criterion: an absent value is smallest,
      two absent values tie, date-like fields compare by parsed instant and
      all other fields by lower-cased text; 0 means "try the next criterion". */
  function Natural(f: string, av: Option<string>, bv: Option<string>,
                   parse: string -> Option<int>): int
  {
    if av.None? && bv.None? then 0
    else if av.None? then -1
    else if bv.None? then 1
    else if IsDateLike(f) then CompareInstants(parse(av.value), parse(bv.value))
    else CompareText(Lower(av.value), Lower(bv.value))
  }

  /** Every return inside `makeComparator` reads `direction === "asc" ? x : -x`. */
  function Signed(d: Direction, n: int): int {
    if d == Asc then n else -n
  }

  /** The outcome of a single criterion on two clients. */
  function CompareOn(c: Criterion, a: Client, b: Client, parse: string -> Option<int>): (r: int)
    ensures -1 <= r <= 1
  {
    Signed(c.direction, Natural(c.field, Get(a, c.field), Get(b, c.field), parse))
  }

  /** `makeComparator(cs)(a, b)`: the criteria in priority order, the first
      one that does not tie deciding. The early return for an empty list
      coincides with falling off the end of the loop. */
  function Compare(cs: seq<Criterion>, a: Client, b: Client, parse: string -> Option<int>): (r: int)
    ensures -1 <= r <= 1
    ensures |cs| == 0 ==> r == 0
    ensures r == 0 <==> forall i :: 0 <= i < |cs| ==> CompareOn(cs[i], a, b, parse) == 0
  {
    if |cs| == 0 then 0
    else
      var r := CompareOn(cs[0], a, b, parse);
      if r != 0 then r else Compare(cs[1..], a, b, parse)
  }

  // ---------------------------------------------------------------------------
  // Lexicographic priority
  // ---------------------------------------------------------------------------

  /** The first criterion on which the two clients do not tie decides. */
  lemma {:induction false} FirstDifferenceDecides(cs: seq<Criterion>, a: Client, b: Client,
                                                  parse: string -> Option<int>, k: nat)
    requires k < |cs|
    requires forall j :: 0 <= j < k ==> CompareOn(cs[j], a, b, parse) == 0
    requires CompareOn(cs[k], a, b, parse) != 0
    ensures Compare(cs, a, b, parse) == CompareOn(cs[k], a, b, parse)
  {
    if k > 0 {
      assert CompareOn(cs[0], a, b, parse) == 0;
      FirstDifferenceDecides(cs[1..], a, b, parse, k - 1);
    }
  }

  /** A prefix of ties falls through: the comparison is the comparison of what follows. */
  lemma {:induction false} TiesFallThrough(cs: seq<Criterion>, a: Client, b: Client,
                                           parse: string -> Option<int>, k: nat)
    requires k <= |cs|
    requires forall j :: 0 <= j < k ==> CompareOn(cs[j], a, b, parse) == 0
    ensures Compare(cs, a, b, parse) == Compare(cs[k..], a, b, parse)
  {
    if k > 0 {
      assert CompareOn(cs[0], a, b, parse) == 0;
      TiesFallThrough(cs[1..], a, b, parse, k - 1);
      assert cs[1..][k - 1..] == cs[k..];
    }
  }

  // ---------------------------------------------------------------------------
  // Algebraic properties
  // ---------------------------------------------------------------------------

  /** A client always ties with itself. */
  lemma CompareReflexive(cs: seq<Criterion>, a: Client, parse: string -> Option<int>)
    ensures Compare(cs, a, a, parse) == 0
  {
    forall i | 0 <= i < |cs|
      ensures CompareOn(cs[i], a, a, parse) == 0
    {
      var v := Get(a, cs[i].field);
      if v.Some? {
        LessIrreflexive(Lower(v.value));
      }
    }
  }

  lemma NaturalAntisymmetric(f: string, av: Option<string>, bv: Option<string>,
                             parse: string -> Option<int>)
    ensures Natural(f, av, bv, parse) == -Natural(f, bv, av, parse)
  {
    if av.Some? && bv.Some? && !IsDateLike(f) {
      LessAsymmetric(Lower(av.value), Lower(bv.value));
    }
  }

  /** Swapping the operands negates the outcome. */
  lemma {:induction false} CompareAntisymmetric(cs: seq<Criterion>, a: Client, b: Client,
                                                parse: string -> Option<int>)
    ensures Compare(cs, a, b, parse) == -Compare(cs, b, a, parse)
  {
    if |cs| > 0 {
      NaturalAntisymmetric(cs[0].field, Get(a, cs[0].field), Get(b, cs[0].field), parse);
      CompareAntisymmetric(cs[1..], a, b, parse);
    }
  }

  /** Every criterion with its direction reversed. */
  function Flipped(cs: seq<Criterion>): (r: seq<Criterion>)
    ensures |r| == |cs|
    ensures forall i :: 0 <= i < |cs| ==>
              r[i].id == cs[i].id && r[i].field == cs[i].field && r[i].direction == cs[i].direction.Flip()
  {
    seq(|cs|, i requires 0 <= i < |cs| => cs[i].(direction := cs[i].direction.Flip()))
  }

  /** Reversing every direction reverses the order. */
  lemma {:induction false} FlipNegates(cs: seq<Criterion>, a: Client, b: Client,
                                       parse: string -> Option<int>)
    ensures Compare(Flipped(cs), a, b, parse) == -Compare(cs, a, b, parse)
  {
    if |cs| > 0 {
      FlipNegates(cs[1..], a, b, parse);
      assert Flipped(cs)[1..] == Flipped(cs[1..]);
    }
  }

  // ---------------------------------------------------------------------------
  // Absent values, unknown fields, date-like and text fields
  // ---------------------------------------------------------------------------

  /** When the deciding criterion finds exactly one value absent, the client
      lacking it comes first under `asc` and last under `desc`. */
  lemma AbsentSortsFirst(cs: seq<Criterion>, a: Client, b: Client,
                         parse: string -> Option<int>, k: nat)
    requires k < |cs|
    requires forall j :: 0 <= j < k ==> CompareOn(cs[j], a, b, parse) == 0
    requires Get(a, cs[k].field).None? && Get(b, cs[k].field).Some?
    ensures Compare(cs, a, b, parse) == (if cs[k].direction == Asc then -1 else 1)
    ensures Compare(cs, b, a, parse) == (if cs[k].direction == Asc then 1 else -1)
  {
    FirstDifferenceDecides(cs, a, b, parse, k);
    CompareAntisymmetric(cs, a, b, parse);
  }

  /** The criteria list without any criterion on field `f`. */
  function WithoutField(cs: seq<Criterion>, f: string): (r: seq<Criterion>)
    ensures forall i :: 0 <= i < |r| ==> r[i].field != f && r[i] in cs
    ensures forall c :: c in cs && c.field != f ==> c in r
    ensures forall c :: multiset(r)[c] == if c.field == f then 0 else multiset(cs)[c]
    ensures Subsequence(r, cs)
  {
    if |cs| == 0 then []
    else
      assert cs == [cs[0]] + cs[1..];
      if cs[0].field == f then WithoutField(cs[1..], f)
      else [cs[0]] + WithoutField(cs[1..], f)
  }

  /** A field on which two clients tie never decides their order: removing
      its criteria changes nothing. */
  lemma {:induction false} TiedFieldIrrelevant(cs: seq<Criterion>, f: string, a: Client, b: Client,
                                               parse: string -> Option<int>)
    requires forall i :: 0 <= i < |cs| && cs[i].field == f ==> CompareOn(cs[i], a, b, parse) == 0
    ensures Compare(cs, a, b, parse) == Compare(WithoutField(cs, f), a, b, parse)
  {
    if |cs| > 0 {
      TiedFieldIrrelevant(cs[1..], f, a, b, parse);
    }
  }

  /** A criterion whose field is absent on both sides ties, whether the name
      is unknown or the record lacks a declared field. */
  lemma BothAbsentTies(c: Criterion, a: Client, b: Client, parse: string -> Option<int>)
    requires Get(a, c.field).None? && Get(b, c.field).None?
    ensures CompareOn(c, a, b, parse) == 0
  {
  }

  /** A criterion naming a field the records do not have always ties. */
  lemma UnknownFieldNeverDecides(cs: seq<Criterion>, f: string, a: Client, b: Client,
                                 parse: string -> Option<int>)
    requires WellFormed(a) && WellFormed(b) && f !in FieldNames
    ensures Compare(cs, a, b, parse) == Compare(WithoutField(cs, f), a, b, parse)
  {
    forall i | 0 <= i < |cs| && cs[i].field == f
      ensures CompareOn(cs[i], a, b, parse) == 0
    {
      BothAbsentTies(cs[i], a, b, parse);
    }
    TiedFieldIrrelevant(cs, f, a, b, parse);
  }

  /** A date-like field whose values both parse is ordered by instant. */
  lemma InstantOrder(c: Criterion, a: Client, b: Client, parse: string -> Option<int>,
                     x: int, y: int)
    requires IsDateLike(c.field)
    requires Get(a, c.field).Some? && parse(Get(a, c.field).value) == Some(x)
    requires Get(b, c.field).Some? && parse(Get(b, c.field).value) == Some(y)
    ensures x < y ==> CompareOn(c, a, b, parse) == (if c.direction == Asc then -1 else 1)
    ensures x > y ==> CompareOn(c, a, b, parse) == (if c.direction == Asc then 1 else -1)
    ensures x == y ==> CompareOn(c, a, b, parse) == 0
  {
  }

  /** A date-like value that does not parse ties with any present value. */
  lemma UnparsedInstantTies(c: Criterion, a: Client, b: Client, parse: string -> Option<int>)
    requires IsDateLike(c.field)
    requires Get(a, c.field).Some? && Get(b, c.field).Some?
    requires parse(Get(a, c.field).value).None? || parse(Get(b, c.field).value).None?
    ensures CompareOn(c, a, b, parse) == 0
  {
  }

  /** The status text never parses as an instant, so a criterion on `status`
      never decides the order of two clients that both have one. */
  lemma StatusNeverDecides(cs: seq<Criterion>, a: Client, b: Client, parse: string -> Option<int>)
    requires Get(a, "status").Some? && Get(b, "status").Some?
    requires parse(Get(a, "status").value).None? || parse(Get(b, "status").value).None?
    ensures Compare(cs, a, b, parse) == Compare(WithoutField(cs, "status"), a, b, parse)
  {
    FieldKinds();
    TiedFieldIrrelevant(cs, "status", a, b, parse);
  }

  /** Other fields tie exactly when their values agree up to case, and are
      otherwise ordered by their lower-cased text. */
  lemma TextOrder(c: Criterion, a: Client, b: Client, parse: string -> Option<int>)
    requires !IsDateLike(c.field)
    requires Get(a, c.field).Some? && Get(b, c.field).Some?
    ensures (CompareOn(c, a, b, parse) == 0) <==>
            (Lower(Get(a, c.field).value) == Lower(Get(b, c.field).value))
    ensures Less(Lower(Get(a, c.field).value), Lower(Get(b, c.field).value)) <==>
            (CompareOn(c, a, b, parse) == (if c.direction == Asc then -1 else 1))
  {
    var u, v := Lower(Get(a, c.field).value), Lower(Get(b, c.field).value);
    LessTotal(u, v);
    LessAsymmetric(u, v);
    LessIrreflexive(u);
  }

  // ---------------------------------------------------------------------------
  // Transitivity, when every date-like value parses
  // ---------------------------------------------------------------------------

  /** Every present value of a date-like criterion field of `a` parses. */
  predicate InstantsParse(cs: seq<Criterion>, parse: string -> Option<int>, a: Client) {
    forall i :: 0 <= i < |cs| && IsDateLike(cs[i].field) && Get(a, cs[i].field).Some? ==>
                  parse(Get(a, cs[i].field).value).Some?
  }

  lemma NaturalTransitive(f: string, u: Option<string>, v: Option<string>, w: Option<string>,
                          parse: string -> Option<int>)
    requires IsDateLike(f) && u.Some? ==> parse(u.value).Some?
    requires IsDateLike(f) && v.Some? ==> parse(v.value).Some?
    requires IsDateLike(f) && w.Some? ==> parse(w.value).Some?
    requires Natural(f, u, v, parse) <= 0 && Natural(f, v, w, parse) <= 0
    ensures Natural(f, u, w, parse) <= 0
  {
    if u.Some? && v.Some? && w.Some? && !IsDateLike(f) {
      var x, y, z := Lower(u.value), Lower(v.value), Lower(w.value);
      LessTotal(x, y);
      LessTotal(y, z);
      if Less(z, x) {
        if Less(x, y) {
          LessTransitive(z, x, y);
        }
      }
    }
  }

  lemma CompareOnTransitive(c: Criterion, a: Client, b: Client, d: Client, parse: string -> Option<int>)
    requires InstantsParse([c], parse, a) && InstantsParse([c], parse, b) && InstantsParse([c], parse, d)
    requires CompareOn(c, a, b, parse) <= 0 && CompareOn(c, b, d, parse) <= 0
    ensures CompareOn(c, a, d, parse) <= 0
  {
    var f := c.field;
    var u, v, w := Get(a, f), Get(b, f), Get(d, f);
    assert [c][0] == c;
    if c.direction == Asc {
      NaturalTransitive(f, u, v, w, parse);
    } else {
      NaturalAntisymmetric(f, u, v, parse);
      NaturalAntisymmetric(f, v, w, parse);
      NaturalAntisymmetric(f, u, w, parse);
      NaturalTransitive(f, w, v, u, parse);
    }
  }

  /** When every date-like value parses, "compares at most 0" is transitive,
      so the comparator is a total preorder. */
  lemma {:induction false} CompareTransitive(cs: seq<Criterion>, a: Client, b: Client, d: Client,
                                             parse: string -> Option<int>)
    requires InstantsParse(cs, parse, a) && InstantsParse(cs, parse, b) && InstantsParse(cs, parse, d)
    requires Compare(cs, a, b, parse) <= 0 && Compare(cs, b, d, parse) <= 0
    ensures Compare(cs, a, d, parse) <= 0
  {
    if |cs| > 0 {
      var c := cs[0];
      assert [c][0] == cs[0];
      var x, y := CompareOn(c, a, b, parse), CompareOn(c, b, d, parse);
      CompareOnTransitive(c, a, b, d, parse);
      if x == 0 && y == 0 {
        CompareAntisymmetric([c], a, b, parse);
        CompareAntisymmetric([c], b, d, parse);
        CompareOnTransitive(c, d, b, a, parse);
        CompareTransitive(cs[1..], a, b, d, parse);
      } else if CompareOn(c, a, d, parse) == 0 {
        // One of x, y is -1, the other at most 0: then a and d cannot tie.
        CompareAntisymmetric([c], a, d, parse);
        CompareAntisymmetric([c], a, b, parse);
        CompareAntisymmetric([c], b, d, parse);
        if x < 0 {
          CompareOnTransitive(c, b, d, a, parse);
        } else {
          CompareOnTransitive(c, d, a, b, parse);
        }
      }
    }
  }

  /** Without that assumption transitivity fails: an unparseable instant ties
      with two instants that are themselves ordered. */
  lemma NaNBreaksTransitivity(parse: string -> Option<int>, s1: string, s2: string, s3: string)
    requires parse(s2).None?
    requires parse(s1).Some? && parse(s3).Some? && parse(s1).value > parse(s3).value
    ensures var cs := [Criterion("c1", "createdAt", Asc)];
            var a := Client(map["createdAt" := s1]);
            var b := Client(map["createdAt" := s2]);
            var d := Client(map["createdAt" := s3]);
            Compare(cs, a, b, parse) == 0 && Compare(cs, b, d, parse) == 0 && Compare(cs, a, d, parse) == 1
  {
    FieldKinds();
    var c := Criterion("c1", "createdAt", Asc);
    var a := Client(map["createdAt" := s1]);
    var b := Client(map["createdAt" := s2]);
    var d := Client(map["createdAt" := s3]);
    assert Get(a, "createdAt") == Some(s1) && Get(b, "createdAt") == Some(s2) && Get(d, "createdAt") == Some(s3);
    assert CompareOn(c, a, b, parse) == 0 && CompareOn(c, b, d, parse) == 0;
    assert CompareOn(c, a, d, parse) == 1;
    assert [c][1..] == [];
  }
}
