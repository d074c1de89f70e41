/** The criteria codec: a criteria list to and from the value of the `sort`
    URL parameter, e.g. `name.asc,createdAt.desc`. */
module Codec {
  import opened Text
  import opened Records

  // ---------------------------------------------------------------------------
  // serializeCriteria
  // ---------------------------------------------------------------------------

  /** `field.direction` */
  function Token(c: Criterion): string {
    c.field + "." + c.direction.Token()
  }

  function Tokens(cs: seq<Criterion>): (ts: seq<string>)
    ensures |ts| == |cs|
    ensures forall i :: 0 <= i < |cs| ==> ts[i] == Token(cs[i])
  {
    seq(|cs|, i requires 0 <= i < |cs| => Token(cs[i]))
  }

  /** `serializeCriteria(cs)`: the tokens, comma-joined, in priority order. */
  function Serialize(cs: seq<Criterion>): (s: string)
    ensures |cs| == 0 <==> s == ""
    ensures (forall i :: 0 <= i < |cs| ==> ',' !in cs[i].field) && |cs| > 0 ==>
              Split(s, ',') == Tokens(cs)
  {
    if |cs| == 0 then ""
    else
      SerializeSplits(cs);
      Join(Tokens(cs), ',')
  }

  lemma SerializeSplits(cs: seq<Criterion>)
    requires |cs| > 0
    ensures Join(Tokens(cs), ',') != ""
    ensures (forall i :: 0 <= i < |cs| ==> ',' !in cs[i].field) ==>
              Split(Join(Tokens(cs), ','), ',') == Tokens(cs)
  {
    var ts := Tokens(cs);
    JoinNonEmpty(ts, ',');
    if forall i :: 0 <= i < |cs| ==> ',' !in cs[i].field {
      TokensCommaFree(cs);
      SplitJoin(ts, ',');
    }
  }

  /** A token has a `,` only if its field has one. */
  lemma TokensCommaFree(cs: seq<Criterion>)
    requires forall i :: 0 <= i < |cs| ==> ',' !in cs[i].field
    ensures forall i :: 0 <= i < |cs| ==> ',' !in Token(cs[i])
  {
    forall i | 0 <= i < |cs|
      ensures ',' !in Token(cs[i])
    {
      assert Token(cs[i]) == cs[i].field + ("." + cs[i].direction.Token());
    }
  }

  lemma JoinNonEmpty(ts: seq<string>, d: char)
    requires |ts| > 0 && ts[0] != ""
    ensures Join(ts, d) != ""
  {
    if |ts| > 1 {
      assert Join(ts, d)[0] == ts[0][0];
    }
  }

  /** The serialization depends on fields and directions only, not on ids. */
  lemma SerializeIgnoresIds(cs: seq<Criterion>, ds: seq<Criterion>)
    requires Keys(cs) == Keys(ds)
    ensures Serialize(cs) == Serialize(ds)
  {
    assert |cs| == |Keys(cs)| == |ds|;
    forall i | 0 <= i < |cs|
      ensures Token(cs[i]) == Token(ds[i])
    {
      assert Keys(cs)[i] == Keys(ds)[i];
    }
    assert Tokens(cs) == Tokens(ds);
  }

  // ---------------------------------------------------------------------------
  // parseCriteriaParam
  // ---------------------------------------------------------------------------

  /** The trimmed pieces of a split, empty ones dropped. */
  function NonEmptyTrimmed(ps: seq<string>): (segs: seq<string>)
    ensures |segs| <= |ps|
    ensures forall i :: 0 <= i < |segs| ==> segs[i] != "" && Trimmed(segs[i])
  {
    if |ps| == 0 then []
    else
      var t := Trim(ps[0]);
      (if t == "" then [] else [t]) + NonEmptyTrimmed(ps[1..])
  }

  /** Every character of a segment comes from one of the pieces. */
  lemma NonEmptyTrimmedChars(ps: seq<string>)
    ensures forall i, ch :: 0 <= i < |NonEmptyTrimmed(ps)| && ch in NonEmptyTrimmed(ps)[i] ==>
              exists j :: 0 <= j < |ps| && ch in ps[j]
  {
    var segs := NonEmptyTrimmed(ps);
    var idx := KeptIndices(ps);
    NonEmptyTrimmedIndexed(ps);
    forall i, ch | 0 <= i < |segs| && ch in segs[i]
      ensures exists j :: 0 <= j < |ps| && ch in ps[j]
    {
      assert segs[i] == Trim(ps[idx[i]]);
      assert ch in ps[idx[i]];
    }
  }

  /** The positions of the elements of `s` that satisfy `keep`, in increasing order. */
  function Positions<T>(s: seq<T>, keep: T -> bool): (idx: seq<nat>)
    ensures PointsInto(idx, s, keep) && Increasing(idx) && CoversAll(idx, s, keep)
  {
    if |s| == 0 then []
    else
      var rest := Positions(s[1..], keep);
      var h := if keep(s[0]) then 1 else 0;
      var r := (if keep(s[0]) then [0] else []) + Shifted(rest);
      PointsIntoStep(s, keep, rest, r, h);
      IncreasingStep(s, keep, rest, r, h);
      CoversAllStep(s, keep, rest, r, h);
      r
  }

  /** Every entry of `idx` is a position of `s` whose element satisfies `keep`. */
  ghost predicate PointsInto<T>(idx: seq<nat>, s: seq<T>, keep: T -> bool) {
    forall i :: 0 <= i < |idx| ==> idx[i] < |s| && keep(s[idx[i]])
  }

  ghost predicate Increasing(idx: seq<nat>) {
    forall i, j :: 0 <= i < j < |idx| ==> idx[i] < idx[j]
  }

  /** Every position of `s` whose element satisfies `keep` is listed in `idx`. */
  ghost predicate CoversAll<T>(idx: seq<nat>, s: seq<T>, keep: T -> bool) {
    forall k :: 0 <= k < |s| && keep(s[k]) ==> k in idx
  }

  /** Positions in `s[1..]` seen as positions in `s`. */
  function Shifted(rest: seq<nat>): (r: seq<nat>)
    ensures |r| == |rest| && forall i :: 0 <= i < |rest| ==> r[i] == rest[i] + 1
  {
    seq(|rest|, i requires 0 <= i < |rest| => rest[i] + 1)
  }

  lemma PointsIntoStep<T>(s: seq<T>, keep: T -> bool, rest: seq<nat>, r: seq<nat>, h: nat)
    requires |s| > 0 && PointsInto(rest, s[1..], keep)
    requires h == (if keep(s[0]) then 1 else 0)
    requires r == (if keep(s[0]) then [0] else []) + Shifted(rest)
    ensures PointsInto(r, s, keep)
  {
    forall i | 0 <= i < |r|
      ensures r[i] < |s| && keep(s[r[i]])
    {
      if i >= h {
        assert r[i] == rest[i - h] + 1;
        assert s[1..][rest[i - h]] == s[rest[i - h] + 1];
      }
    }
  }

  lemma IncreasingStep<T>(s: seq<T>, keep: T -> bool, rest: seq<nat>, r: seq<nat>, h: nat)
    requires |s| > 0 && Increasing(rest)
    requires h == (if keep(s[0]) then 1 else 0)
    requires r == (if keep(s[0]) then [0] else []) + Shifted(rest)
    ensures Increasing(r)
  {
    forall i, j | 0 <= i < j < |r|
      ensures r[i] < r[j]
    {
      assert r[j] == rest[j - h] + 1;
      if i >= h {
        assert r[i] == rest[i - h] + 1;
      }
    }
  }

  lemma CoversAllStep<T>(s: seq<T>, keep: T -> bool, rest: seq<nat>, r: seq<nat>, h: nat)
    requires |s| > 0 && CoversAll(rest, s[1..], keep)
    requires h == (if keep(s[0]) then 1 else 0)
    requires r == (if keep(s[0]) then [0] else []) + Shifted(rest)
    ensures CoversAll(r, s, keep)
  {
    forall k | 0 <= k < |s| && keep(s[k])
      ensures k in r
    {
      if k == 0 {
        assert r[0] == 0;
      } else {
        assert s[1..][k - 1] == s[k];
        assert k - 1 in rest;
        var i :| 0 <= i < |rest| && rest[i] == k - 1;
        assert r[i + h] == k;
      }
    }
  }

  /** A piece that does not trim to nothing. */
  predicate NonBlank(p: string) {
    Trim(p) != ""
  }

  /** The positions of the pieces that are not blank, in increasing order. */
  function KeptIndices(ps: seq<string>): (idx: seq<nat>)
    ensures forall i :: 0 <= i < |idx| ==> idx[i] < |ps| && Trim(ps[idx[i]]) != ""
    ensures forall i, j :: 0 <= i < j < |idx| ==> idx[i] < idx[j]
    ensures forall k :: 0 <= k < |ps| && Trim(ps[k]) != "" ==> k in idx
  {
    var idx := Positions(ps, NonBlank);
    assert forall k :: 0 <= k < |ps| ==> (NonBlank(ps[k]) <==> Trim(ps[k]) != "");
    idx
  }

  /** `.map(trim).filter(Boolean)`: the i-th segment is the trimmed piece at
      the i-th non-blank position, so every non-blank piece is kept, trimmed,
      in order, and nothing else is. */
  lemma {:induction false} NonEmptyTrimmedIndexed(ps: seq<string>)
    ensures |NonEmptyTrimmed(ps)| == |KeptIndices(ps)|
    ensures forall i :: 0 <= i < |KeptIndices(ps)| ==> NonEmptyTrimmed(ps)[i] == Trim(ps[KeptIndices(ps)[i]])
  {
    if |ps| > 0 {
      NonEmptyTrimmedIndexed(ps[1..]);
      MapFilterStep(ps, Trim, NonBlank, NonEmptyTrimmed(ps), NonEmptyTrimmed(ps[1..]),
                    KeptIndices(ps), KeptIndices(ps[1..]));
    }
  }

  /** One step of a map-then-filter over `ps`: the head contributes its image
      and the position 0 together or not at all, and the rest shifts by one. */
  lemma MapFilterStep<T, U>(ps: seq<T>, f: T -> U, keep: T -> bool,
                            out: seq<U>, rest: seq<U>, idx: seq<nat>, ri: seq<nat>)
    requires |ps| > 0
    requires out == (if keep(ps[0]) then [f(ps[0])] else []) + rest
    requires idx == (if keep(ps[0]) then [0] else []) + Shifted(ri)
    requires |rest| == |ri| && forall i :: 0 <= i < |ri| ==> ri[i] < |ps[1..]| && rest[i] == f(ps[1..][ri[i]])
    ensures |out| == |idx|
    ensures forall i :: 0 <= i < |idx| ==> idx[i] < |ps| && out[i] == f(ps[idx[i]])
  {
    var h := if keep(ps[0]) then 1 else 0;
    forall i | 0 <= i < |idx|
      ensures idx[i] < |ps| && out[i] == f(ps[idx[i]])
    {
      if i >= h {
        assert out[i] == rest[i - h];
        assert idx[i] == ri[i - h] + 1;
        assert ps[1..][ri[i - h]] == ps[idx[i]];
      }
    }
  }

  /** Pieces that are already non-empty and trimmed pass through unchanged. */
  lemma {:induction false} NonEmptyTrimmedKeeps(ps: seq<string>)
    requires forall i :: 0 <= i < |ps| ==> ps[i] != "" && Trimmed(ps[i])
    ensures NonEmptyTrimmed(ps) == ps
  {
    if |ps| > 0 {
      TrimOfTrimmed(ps[0]);
      NonEmptyTrimmedKeeps(ps[1..]);
    }
  }

  /** Blank pieces yield no segment at all. */
  lemma {:induction false} EmptyPiecesDropped(ps: seq<string>)
    requires forall i :: 0 <= i < |ps| ==> ps[i] == ""
    ensures NonEmptyTrimmed(ps) == []
  {
    if |ps| > 0 {
      EmptyPiecesDropped(ps[1..]);
    }
  }

  /** The comma segments of the parameter that yield a criterion each. */
  function Segments(param: string): (segs: seq<string>)
    ensures forall i :: 0 <= i < |segs| ==> segs[i] != "" && Trimmed(segs[i]) && ',' !in segs[i]
    ensures var ps := Split(param, ',');
            var idx := KeptIndices(ps);
            && |segs| == |idx|
            && forall i :: 0 <= i < |idx| ==> segs[i] == Trim(ps[idx[i]])
  {
    var ps := Split(param, ',');
    NonEmptyTrimmedIndexed(ps);
    NonEmptyTrimmedChars(ps);
    NonEmptyTrimmed(ps)
  }

  /** The synthetic id `${field}_${t}_${idx}`, `t` being the value of
      `Date.now()` when segment `idx` is mapped. */
  function ParsedId(field: string, t: nat, idx: nat): string {
    field + "_" + Decimal(t) + "_" + Decimal(idx)
  }

  /** One segment: the text before the first `.` is the field; the direction
      is `desc` exactly when the next `.`-piece is `desc`. */
  function ParseSegment(seg: string, t: nat, idx: nat): Criterion {
    var pieces := Split(seg, '.');
    var field := pieces[0];
    Criterion(ParsedId(field, t, idx), field,
              if |pieces| >= 2 && pieces[1] == "desc" then Desc else Asc)
  }

  /** `f` is the text of `seg` before its first `.`. */
  predicate FieldOf(seg: string, f: string) {
    f <= seg && '.' !in f && (|f| == |seg| || seg[|f|] == '.')
  }

  /** After the field, `seg` continues with `.desc`, followed by `.` or the end. */
  predicate DescAfter(seg: string, f: string)
    requires f <= seg
  {
    var rest := seg[|f|..];
    |rest| >= 5 && rest[..5] == ".desc" && (|rest| == 5 || rest[5] == '.')
  }

  lemma ParseSegmentSpec(seg: string, t: nat, idx: nat)
    ensures var c := ParseSegment(seg, t, idx);
            && FieldOf(seg, c.field)
            && (c.direction == Desc <==> DescAfter(seg, c.field))
            && c.id == ParsedId(c.field, t, idx)
  {
    var pieces := Split(seg, '.');
    var f := pieces[0];
    SplitHead(seg, '.');
    if |f| < |seg| {
      var rest := seg[|f| + 1..];
      SplitHead(rest, '.');
      assert pieces[1] == Split(rest, '.')[0];
      SecondPieceDesc(seg, f, rest, pieces[1]);
    }
  }

  /** With `h` the text between the first and the second `.` after the field
      `f`, `h` is `desc` exactly when `.desc` follows the field. */
  lemma SecondPieceDesc(seg: string, f: string, rest: string, h: string)
    requires f <= seg && |f| < |seg| && seg[|f|] == '.' && rest == seg[|f| + 1..]
    requires h <= rest && '.' !in h && (|h| == |rest| || rest[|h|] == '.')
    ensures h == "desc" <==> DescAfter(seg, f)
  {
    var tail := seg[|f|..];
    assert tail == ['.'] + rest;
    if h == "desc" {
      assert tail[..5] == ['.'] + rest[..4];
    }
    if DescAfter(seg, f) {
      assert rest[..4] == tail[1..5];
      if |h| == 4 {
        assert h == rest[..4];
      }
    }
  }

  /** `parseCriteriaParam(param)`. The callback reads `Date.now()` once per
      segment; `clock(idx)` is the value it reads for segment `idx`. */
  function Parse(param: string, clock: nat -> nat): (r: seq<Criterion>)
    ensures param == "" ==> r == []
    ensures ParsedFrom(Segments(param), r, clock)
    ensures UniqueIds(r)
  {
    // The early `return []` for an empty parameter is the general path too:
    // the empty parameter has no segments.
    EmptyParamNoSegments(param);
    ParseAll(Segments(param), clock)
  }

  /** The empty parameter splits into one blank piece and so has no segment. */
  lemma EmptyParamNoSegments(param: string)
    ensures param == "" ==> Segments(param) == []
  {
    if param == "" {
      assert Split(param, ',') == [""];
      EmptyPiecesDropped([""]);
    }
  }

  /** `r` has one criterion per segment: its field is the text of the segment
      before the first `.`, it is descending exactly when `.desc` follows the
      field, and its id is built from the field, `clock(i)` and the position. */
  ghost predicate ParsedFrom(segs: seq<string>, r: seq<Criterion>, clock: nat -> nat) {
    && |r| == |segs|
    && forall i :: 0 <= i < |r| ==>
         && FieldOf(segs[i], r[i].field)
         && (r[i].direction == Desc <==> DescAfter(segs[i], r[i].field))
         && r[i].id == ParsedId(r[i].field, clock(i), i)
  }

  /** The `.map` over the segments: segment `i` becomes a criterion whose
      timestamp is `clock(i)`. */
  function ParseAll(segs: seq<string>, clock: nat -> nat): (r: seq<Criterion>)
    ensures ParsedFrom(segs, r, clock)
    ensures UniqueIds(r)
  {
    var r := seq(|segs|, i requires 0 <= i < |segs| => ParseSegment(segs[i], clock(i), i));
    ParsedSegments(segs, r, clock);
    ParsedIdsDistinct(r, clock);
    r
  }

  /** The criterion at position `i` is segment `i` parsed at time `clock(i)`. */
  lemma ParseAt(param: string, clock: nat -> nat, i: nat)
    requires i < |Segments(param)|
    ensures i < |Parse(param, clock)|
    ensures Parse(param, clock)[i] == ParseSegment(Segments(param)[i], clock(i), i)
  {
  }

  /** Each criterion of `r` is the parse of the segment at its position. */
  lemma ParsedSegments(segs: seq<string>, r: seq<Criterion>, clock: nat -> nat)
    requires |r| == |segs| && forall i :: 0 <= i < |r| ==> r[i] == ParseSegment(segs[i], clock(i), i)
    ensures ParsedFrom(segs, r, clock)
  {
    forall i | 0 <= i < |r| {
      ParseSegmentSpec(segs[i], clock(i), i);
    }
  }

  /** Ids that end in their own position are pairwise distinct, whatever
      field and timestamp precede the position. */
  lemma ParsedIdsDistinct(r: seq<Criterion>, clock: nat -> nat)
    requires forall i :: 0 <= i < |r| ==> r[i].id == ParsedId(r[i].field, clock(i), i)
    ensures UniqueIds(r)
  {
    forall i, j | 0 <= i < j < |r|
      ensures r[i].id != r[j].id
    {
      if r[i].id == r[j].id {
        IndexSuffixInjective(r[i].field + "_" + Decimal(clock(i)), i, r[j].field + "_" + Decimal(clock(j)), j);
      }
    }
  }

  // ---------------------------------------------------------------------------
  // Round trip
  // ---------------------------------------------------------------------------

  /** A field name that survives serialization: no `,` or `.` inside and no
      leading white space. */
  predicate SafeField(f: string) {
    ',' !in f && '.' !in f && (f == [] || !IsSpace(f[0]))
  }

  lemma TokenSegment(c: Criterion)
    requires SafeField(c.field)
    ensures Token(c) != "" && Trimmed(Token(c))
    ensures Split(Token(c), '.') == [c.field, c.direction.Token()]
  {
    var t := Token(c);
    assert t[|t| - 1] == 'c';
    if c.field == [] {
      assert t[0] == '.';
    } else {
      assert t[0] == c.field[0];
    }
    SplitCons(c.field, '.', c.direction.Token());
  }

  lemma SegmentsOfSerialize(cs: seq<Criterion>)
    requires |cs| > 0
    requires forall i :: 0 <= i < |cs| ==> SafeField(cs[i].field)
    ensures Segments(Serialize(cs)) == Tokens(cs)
  {
    var ts := Tokens(cs);
    forall i | 0 <= i < |ts|
      ensures ts[i] != "" && Trimmed(ts[i])
    {
      TokenSegment(cs[i]);
    }
    NonEmptyTrimmedKeeps(ts);
  }

  lemma ParseToken(c: Criterion, now: nat, idx: nat)
    requires SafeField(c.field)
    ensures ParseSegment(Token(c), now, idx).field == c.field
    ensures ParseSegment(Token(c), now, idx).direction == c.direction
  {
    TokenSegment(c);
  }

  /** Parsing what was serialized gives back every field and direction, in
      order; only the ids are new. */
  lemma RoundTrip(cs: seq<Criterion>, clock: nat -> nat)
    requires forall i :: 0 <= i < |cs| ==> SafeField(cs[i].field)
    ensures Keys(Parse(Serialize(cs), clock)) == Keys(cs)
  {
    if |cs| > 0 {
      RoundTripNonEmpty(cs, clock);
    }
  }

  lemma RoundTripNonEmpty(cs: seq<Criterion>, clock: nat -> nat)
    requires |cs| > 0
    requires forall i :: 0 <= i < |cs| ==> SafeField(cs[i].field)
    ensures Keys(Parse(Serialize(cs), clock)) == Keys(cs)
  {
    SegmentsOfSerialize(cs);
    ParseOfTokens(Serialize(cs), cs, clock);
  }

  /** A parameter whose segments are the tokens of `cs` parses back to the
      fields and directions of `cs`. */
  lemma ParseOfTokens(param: string, cs: seq<Criterion>, clock: nat -> nat)
    requires forall i :: 0 <= i < |cs| ==> SafeField(cs[i].field)
    requires Segments(param) == Tokens(cs)
    ensures Keys(Parse(param, clock)) == Keys(cs)
  {
    var r := Parse(param, clock);
    assert |r| == |cs|;
    forall i | 0 <= i < |cs|
      ensures Keys(r)[i] == Keys(cs)[i]
    {
      ParseAt(param, clock, i);
      ParseToken(cs[i], clock(i), i);
    }
  }

  /** Every parsed field is safe, so re-serializing a parse is lossless. */
  lemma ParsedFieldsSafe(param: string, clock: nat -> nat)
    ensures forall i :: 0 <= i < |Parse(param, clock)| ==> SafeField(Parse(param, clock)[i].field)
  {
    var r := Parse(param, clock);
    var segs := Segments(param);
    forall i | 0 <= i < |r|
      ensures SafeField(r[i].field)
    {
      FieldOfSegmentSafe(segs[i], r[i].field);
    }
  }

  /** The field of a segment is safe: a segment holds no `,`, the field stops
      before the first `.`, and it starts where the trimmed segment starts. */
  lemma FieldOfSegmentSafe(seg: string, f: string)
    requires Trimmed(seg) && ',' !in seg && FieldOf(seg, f)
    ensures SafeField(f)
  {
    assert forall ch :: ch in f ==> ch in seg;
    if f != [] {
      assert f[0] == seg[0];
    }
  }

  /** `parse` is idempotent up to ids: serializing a parse and parsing again
      changes no field or direction. */
  lemma ParseIdempotent(param: string, clock: nat -> nat, later: nat -> nat)
    ensures Keys(Parse(Serialize(Parse(param, clock)), later)) == Keys(Parse(param, clock))
  {
    ParsedFieldsSafe(param, clock);
    RoundTrip(Parse(param, clock), later);
  }

  /** The law `serialize(parse(serialize(c))) == serialize(c)`. */
  lemma SerializeParseSerialize(cs: seq<Criterion>, clock: nat -> nat)
    requires forall i :: 0 <= i < |cs| ==> SafeField(cs[i].field)
    ensures Serialize(Parse(Serialize(cs), clock)) == Serialize(cs)
  {
    RoundTrip(cs, clock);
    SerializeIgnoresIds(Parse(Serialize(cs), clock), cs);
  }
}
