/** The two record shapes of the sort engine: a client and a sort criterion. */
module Records {
  import opened Wrappers

  /** A client record, seen the way the comparator sees it: a lookup from a
      field name to a string value. A name that is not a key is absent, which
      covers unknown field names as well as fields missing (or `null`) in a
      record restored from storage. */
  datatype Client = Client(fields: map<string, string>)

  /** The six fields a client is declared with. */
  const FieldNames: set<string> := {"id", "name", "email", "createdAt", "updatedAt", "status"}

  /** A record built by the application carries exactly the declared fields. */
  predicate Complete(c: Client) {
    c.fields.Keys == FieldNames
  }

  /** A record holds no field beyond the declared ones. */
  predicate WellFormed(c: Client) {
    c.fields.Keys <= FieldNames
  }

  /** `(c as any)[f]`, with `undefined`/`null` as `None`. */
  function Get(c: Client, f: string): (v: Option<string>)
    ensures v.Some? <==> f in c.fields
    ensures WellFormed(c) && f !in FieldNames ==> v == None
  {
    if f in c.fields then Some(c.fields[f]) else None
  }

  function NewClient(id: string, name: string, email: string,
                     createdAt: string, updatedAt: string, status: string): (c: Client)
    ensures Complete(c)
    ensures Get(c, "id") == Some(id) && Get(c, "name") == Some(name)
    ensures Get(c, "email") == Some(email) && Get(c, "status") == Some(status)
    ensures Get(c, "createdAt") == Some(createdAt) && Get(c, "updatedAt") == Some(updatedAt)
  {
    Client(map["id" := id, "name" := name, "email" := email,
               "createdAt" := createdAt, "updatedAt" := updatedAt, "status" := status])
  }

  datatype Direction = Asc | Desc {
    /** The literal token: `"asc"` or `"desc"`. */
    function Token(): string {
      match this
      case Asc => "asc"
      case Desc => "desc"
    }

    function Flip(): Direction {
      match this
      case Asc => Desc
      case Desc => Asc
    }
  }

  /** One sort key. The id only gives the entry a stable identity in the
      drag-and-drop list; the field name is any string, as nothing checks it. */
  datatype Criterion = Criterion(id: string, field: string, direction: Direction)

  /** The (field, direction) content of a criteria list, i.e. everything but the ids. */
  function Keys(cs: seq<Criterion>): (r: seq<(string, Direction)>)
    ensures |r| == |cs|
    ensures forall i :: 0 <= i < |cs| ==> r[i] == (cs[i].field, cs[i].direction)
  {
    seq(|cs|, i requires 0 <= i < |cs| => (cs[i].field, cs[i].direction))
  }

  /** `b` keeps some of the entries of `a`, in their order. */
  predicate Subsequence<T(==)>(b: seq<T>, a: seq<T>)
    decreases |a|
  {
    |b| == 0 || (|a| > 0 && ((b[0] == a[0] && Subsequence(b[1..], a[1..])) || Subsequence(b, a[1..])))
  }

  /** Ids are pairwise distinct. */
  predicate UniqueIds(cs: seq<Criterion>) {
    forall i, j :: 0 <= i < j < |cs| ==> cs[i].id != cs[j].id
  }

  /** Each field appears at most once in the list. */
  predicate UniqueFields(cs: seq<Criterion>) {
    forall i, j :: 0 <= i < j < |cs| ==> cs[i].field != cs[j].field
  }
}
