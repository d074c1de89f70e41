/** The pure state transitions of the client list screen: editing the
    criteria list, restoring it on load, mirroring it into the URL, adding a
    client, validating the add-client form, and deriving the displayed rows. */
module ClientList {
  import opened Wrappers
  import opened Text
  import opened Records
  import opened Comparator
  import opened Codec
  import opened StableSort

  // ---------------------------------------------------------------------------
  // Editing the criteria list
  // ---------------------------------------------------------------------------

  predicate HasField(cs: seq<Criterion>, field: string) {
    exists i :: 0 <= i < |cs| && cs[i].field == field
  }

  /** `addCriterionForField`: a field already in the list is a no-op;
      otherwise `{field, asc}` with id `${field}_${now}` goes at the end. */
  function AddCriterion(cs: seq<Criterion>, field: string, now: nat): (r: seq<Criterion>)
    ensures HasField(cs, field) ==> r == cs
    ensures !HasField(cs, field) ==>
              && |r| == |cs| + 1 && r[..|cs|] == cs
              && r[|cs|].field == field && r[|cs|].direction == Asc
    ensures !HasField(cs, field) ==> r[|cs|].id == field + "_" + Decimal(now)
    ensures HasField(r, field)
    ensures UniqueFields(cs) ==> UniqueFields(r)
  {
    if HasField(cs, field) then cs
    else
      var r := cs + [Criterion(field + "_" + Decimal(now), field, Asc)];
      assert r[|cs|].field == field;
      r
  }

  /** Adding the same field twice adds it once. */
  lemma AddCriterionIdempotent(cs: seq<Criterion>, field: string, now: nat, later: nat)
    ensures AddCriterion(AddCriterion(cs, field, now), field, later) == AddCriterion(cs, field, now)
  {
  }

  /** `removeCriterion`: exactly the entries with another id, in their order. */
  function RemoveCriterion(cs: seq<Criterion>, id: string): (r: seq<Criterion>)
    ensures forall c :: multiset(r)[c] == if c.id == id then 0 else multiset(cs)[c]
    ensures Subsequence(r, cs)
  {
    if |cs| == 0 then []
    else
      var rest := RemoveCriterion(cs[1..], id);
      assert cs == [cs[0]] + cs[1..];
      if cs[0].id == id then rest else [cs[0]] + rest
  }

  lemma SubsequenceUnique(r: seq<Criterion>, cs: seq<Criterion>)
    requires Subsequence(r, cs) && UniqueFields(cs)
    ensures UniqueFields(r)
    decreases |cs|
  {
    if |r| > 0 {
      if r[0] == cs[0] && Subsequence(r[1..], cs[1..]) {
        SubsequenceUnique(r[1..], cs[1..]);
        SubsequenceIn(r[1..], cs[1..]);
        forall j | 0 < j < |r|
          ensures r[0].field != r[j].field
        {
          assert r[1..][j - 1] in cs[1..];
        }
      } else {
        SubsequenceUnique(r, cs[1..]);
      }
    }
  }

  lemma SubsequenceIn<T>(b: seq<T>, a: seq<T>)
    requires Subsequence(b, a)
    ensures forall x :: x in b ==> x in a
    decreases |a|
  {
    if |b| > 0 {
      if b[0] == a[0] && Subsequence(b[1..], a[1..]) {
        SubsequenceIn(b[1..], a[1..]);
        assert b == [b[0]] + b[1..];
      } else {
        SubsequenceIn(b, a[1..]);
      }
    }
  }

  /** Removing keeps "each field at most once". */
  lemma RemoveKeepsUniqueFields(cs: seq<Criterion>, id: string)
    requires UniqueFields(cs)
    ensures UniqueFields(RemoveCriterion(cs, id))
  {
    SubsequenceUnique(RemoveCriterion(cs, id), cs);
  }

  /** `setDirection`: entries with the id get the new direction; length,
      order, ids and fields are untouched. */
  function SetDirection(cs: seq<Criterion>, id: string, dir: Direction): (r: seq<Criterion>)
    ensures |r| == |cs|
    ensures forall i :: 0 <= i < |cs| ==>
              && r[i].id == cs[i].id && r[i].field == cs[i].field
              && r[i].direction == (if cs[i].id == id then dir else cs[i].direction)
  {
    seq(|cs|, i requires 0 <= i < |cs| => if cs[i].id == id then cs[i].(direction := dir) else cs[i])
  }

  /** Setting an entry's direction back to what it was restores the list. */
  lemma SetDirectionUndo(cs: seq<Criterion>, k: nat, dir: Direction)
    requires k < |cs| && UniqueIds(cs)
    ensures SetDirection(SetDirection(cs, cs[k].id, dir), cs[k].id, cs[k].direction) == cs
  {
  }

  lemma SetDirectionKeepsUniqueFields(cs: seq<Criterion>, id: string, dir: Direction)
    requires UniqueFields(cs)
    ensures UniqueFields(SetDirection(cs, id, dir))
  {
  }

  /** `clearAll` */
  function ClearAll(): (r: seq<Criterion>)
    ensures |r| == 0
  {
    []
  }

  // ---------------------------------------------------------------------------
  // URL and stored criteria
  // ---------------------------------------------------------------------------

  /** The `sort` parameter `applySortToURL` leaves behind: the serialization,
      or no parameter at all for an empty list. */
  function SortParamAfterApply(cs: seq<Criterion>): (p: Option<string>)
    ensures p.None? <==> |cs| == 0
    ensures p.Some? ==> p.value == Serialize(cs)
  {
    var v := Serialize(cs);
    if v != "" then Some(v) else None
  }

  /** The criteria on load: the URL's `sort` value when it is non-empty and
      parses to at least one criterion, else the stored list when one was
      read back as an array, else the initial empty list. */
  function LoadCriteria(sortParam: Option<string>, stored: Option<seq<Criterion>>, clock: nat -> nat): (r: seq<Criterion>)
    ensures sortParam.Some? && |Parse(sortParam.value, clock)| > 0 ==> r == Parse(sortParam.value, clock)
    ensures (sortParam.None? || |Parse(sortParam.value, clock)| == 0) ==> r == stored.GetOr([])
  {
    if sortParam.Some? && sortParam.value != "" && |Parse(sortParam.value, clock)| > 0 then
      Parse(sortParam.value, clock)
    else if stored.Some? then stored.value
    else []
  }

  /** Applying a sort and reloading the page restores its fields and
      directions; applying an empty sort falls back to the stored list. */
  lemma ApplyThenReload(cs: seq<Criterion>, stored: Option<seq<Criterion>>, clock: nat -> nat)
    requires forall i :: 0 <= i < |cs| ==> SafeField(cs[i].field)
    ensures |cs| > 0 ==> Keys(LoadCriteria(SortParamAfterApply(cs), stored, clock)) == Keys(cs)
    ensures |cs| == 0 ==> LoadCriteria(SortParamAfterApply(cs), stored, clock) == stored.GetOr([])
  {
    if |cs| > 0 {
      RoundTrip(cs, clock);
    }
  }

  /** A parameter made only of separators, such as `,,,`, yields the stored list. */
  lemma SeparatorsFallBack(n: nat, stored: Option<seq<Criterion>>, clock: nat -> nat)
    ensures LoadCriteria(Some(seq(n, _ => ',')), stored, clock) == stored.GetOr([])
  {
    var p: string := seq(n, _ => ',');
    var ps := Split(p, ',');
    assert forall ch :: ch in p ==> ch == ',';
    forall i | 0 <= i < |ps|
      ensures ps[i] == ""
    {
      SplitPieceIn(p, ',', i);
      NoneLeft(ps[i], ',');
    }
    EmptyPiecesDropped(ps);
  }

  // ---------------------------------------------------------------------------
  // Clients and displayed rows
  // ---------------------------------------------------------------------------

  /** `handleSaveClient`: the new client goes on top. */
  function SaveClient(clients: seq<Client>, c: Client): (r: seq<Client>)
    ensures |r| == |clients| + 1 && r[0] == c && r[1..] == clients
    ensures multiset(r) == multiset(clients) + multiset{c}
  {
    [c] + clients
  }

  function Cmp(cs: seq<Criterion>, parse: string -> Option<int>): (cmp: (Client, Client) -> int)
    ensures forall a, b :: cmp(a, b) == Compare(cs, a, b, parse)
  {
    (a: Client, b: Client) => Compare(cs, a, b, parse)
  }

  /** The `sortedClients` memo: a copy of the list, sorted by the criteria
      when there are any. */
  function DisplayedRows(clients: seq<Client>, cs: seq<Criterion>, parse: string -> Option<int>): (rows: seq<Client>)
    ensures multiset(rows) == multiset(clients)
    ensures |cs| == 0 ==> rows == clients
  {
    if |cs| == 0 then clients else Sort(clients, Cmp(cs, parse))
  }

  /** Skipping the sort for an empty list changes nothing: sorting with the
      empty comparator is the identity. */
  lemma EmptyCriteriaSortIsIdentity(clients: seq<Client>, parse: string -> Option<int>)
    ensures Sort(clients, Cmp([], parse)) == clients
  {
    SortAllTies(clients, Cmp([], parse));
  }

  /** When the date-like values parse, the comparator is consistent on the list. */
  lemma ComparatorConsistent(clients: seq<Client>, cs: seq<Criterion>, parse: string -> Option<int>)
    requires forall c | c in clients :: InstantsParse(cs, parse, c)
    ensures Consistent(Cmp(cs, parse), clients)
  {
    var cmp := Cmp(cs, parse);
    forall a, b | a in clients && b in clients
      ensures cmp(a, b) == -cmp(b, a)
    {
      CompareAntisymmetric(cs, a, b, parse);
    }
    forall a, b, d | a in clients && b in clients && d in clients && cmp(a, b) <= 0 && cmp(b, d) <= 0
      ensures cmp(a, d) <= 0
    {
      CompareTransitive(cs, a, b, d, parse);
    }
  }

  /** The displayed rows are ordered by the criteria and clients that compare
      equal keep their relative order. */
  lemma DisplayedRowsOrdered(clients: seq<Client>, cs: seq<Criterion>, parse: string -> Option<int>)
    requires forall c | c in clients :: InstantsParse(cs, parse, c)
    ensures Sorted(DisplayedRows(clients, cs, parse), Cmp(cs, parse))
    ensures Stable(clients, DisplayedRows(clients, cs, parse), Cmp(cs, parse))
  {
    if |cs| == 0 {
      EmptyCriteriaSortIsIdentity(clients, parse);
    }
    ComparatorConsistent(clients, cs, parse);
    SortCorrect(clients, Cmp(cs, parse));
  }

  /** A saved client is on screen, and on top when no sort is active. */
  lemma SavedClientShown(clients: seq<Client>, c: Client, cs: seq<Criterion>, parse: string -> Option<int>)
    ensures c in DisplayedRows(SaveClient(clients, c), cs, parse)
    ensures |cs| == 0 ==> DisplayedRows(SaveClient(clients, c), cs, parse)[0] == c
  {
    var rows := DisplayedRows(SaveClient(clients, c), cs, parse);
    assert c in multiset(rows);
  }

  /** Clearing the criteria shows the list in stored order and removes the
      `sort` parameter on the next apply. */
  lemma ClearAllResets(clients: seq<Client>, parse: string -> Option<int>)
    ensures DisplayedRows(clients, ClearAll(), parse) == clients
    ensures SortParamAfterApply(ClearAll()) == None
  {
  }

  // ---------------------------------------------------------------------------
  // The add-client form
  // ---------------------------------------------------------------------------

  /** The regular expression `^\S+@\S+\.\S+$`: no white space, an `@` after
      at least one character, then at least one character, a `.`, and at
      least one more character. */
  ghost predicate EmailShape(s: string) {
    NoSpace(s) &&
    exists i, j :: 1 <= i && i + 2 <= j && j + 2 <= |s| && s[i] == '@' && s[j] == '.'
  }

  /** Decides `EmailShape` in one pass: the earliest usable `@` and the latest
      usable `.` are the best witnesses. */
  method MatchesEmail(s: string) returns (ok: bool)
    ensures ok <==> EmailShape(s)
  {
    var spaceFree := true;
    var firstAt := -1;
    var lastDot := -1;
    var k := 0;
    while k < |s|
      invariant 0 <= k <= |s|
      invariant spaceFree <==> forall m :: 0 <= m < k ==> !IsSpace(s[m])
      invariant firstAt == -1 ==> forall m :: 1 <= m < k ==> s[m] != '@'
      invariant firstAt != -1 ==> 1 <= firstAt < k && s[firstAt] == '@'
      invariant firstAt != -1 ==> forall m :: 1 <= m < firstAt ==> s[m] != '@'
      invariant lastDot == -1 ==> forall m :: 0 <= m < k && m + 2 <= |s| ==> s[m] != '.'
      invariant lastDot != -1 ==> 0 <= lastDot < k && lastDot + 2 <= |s| && s[lastDot] == '.'
      invariant lastDot != -1 ==> forall m :: lastDot < m < k && m + 2 <= |s| ==> s[m] != '.'
    {
      if IsSpace(s[k]) {
        spaceFree := false;
      }
      if s[k] == '@' && k >= 1 && firstAt == -1 {
        firstAt := k;
      }
      if s[k] == '.' && k + 2 <= |s| {
        lastDot := k;
      }
      k := k + 1;
    }
    ok := spaceFree && firstAt != -1 && lastDot != -1 && firstAt + 2 <= lastDot;
    if EmailShape(s) {
      var i, j :| 1 <= i && i + 2 <= j && j + 2 <= |s| && s[i] == '@' && s[j] == '.';
      assert firstAt != -1 && firstAt <= i;
      assert lastDot != -1 && j <= lastDot;
    }
    if ok {
      assert 1 <= firstAt && firstAt + 2 <= lastDot && lastDot + 2 <= |s|;
    }
  }

  datatype FormError =
    | NameRequired      // "Please enter a name"
    | EmailInvalid      // "Enter a valid email"
    | CreatedAtInvalid  // `toISOString` throws on an invalid date; nothing is saved

  datatype Submission = Saved(client: Client) | Rejected(error: FormError)

  /** `handleSubmit`. The ISO renderings of the entered creation time (None
      when it is not a valid date) and of the current time, and the value of
      `Date.now()`, are inputs. */
  method Submit(name: string, email: string, status: string,
                createdAtIso: Option<string>, nowIso: string, now: nat) returns (r: Submission)
    ensures r.Saved? <==> Trim(name) != "" && EmailShape(email) && createdAtIso.Some?
    ensures r.Rejected? && r.error == NameRequired <==> Trim(name) == ""
    ensures r.Rejected? && r.error == EmailInvalid <==> Trim(name) != "" && !EmailShape(email)
    ensures r.Saved? ==>
              r.client == NewClient("u_" + Decimal(now), Trim(name), email, createdAtIso.value, nowIso, status)
    ensures r.Saved? ==> NoSpace(email) && Trim(email) == email
  {
    if Trim(name) == "" {
      return Rejected(NameRequired);
    }
    var matches := MatchesEmail(email);
    if Trim(email) == "" || !matches {
      return Rejected(EmailInvalid);
    }
    if createdAtIso.None? {
      return Rejected(CreatedAtInvalid);
    }
    TrimNoSpace(email);
    r := Saved(NewClient("u_" + Decimal(now), Trim(name), Trim(email), createdAtIso.value, nowIso, status));
  }

  lemma TrimNoSpace(s: string)
    requires NoSpace(s)
    ensures Trim(s) == s
  {
    TrimOfTrimmed(s);
  }
}
