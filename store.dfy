/**
 * The in-memory feedback store: the module-level `formEntries` array of
 * server.js and the five route handlers that read and change it. Each handler
 * returns a `Response` instead of writing an HTTP reply.
 */
module FeedbackStore {
  import opened JsValues
  import opened Entries

  /**
   * What a handler answers. The HTTP layer maps `Ok` to 201 for a create and
   * to 200 otherwise, `ValidationError` to 400 and `NotFound` to 404.
   */
  datatype Response<T> = Ok(value: T) | ValidationError | NotFound

  class Store {
    /** `formEntries`, in insertion order; ids may repeat. */
    var entries: seq<Entry>

    /** Every stored entry has its four fields present. */
    ghost predicate Valid()
      reads this
    {
      AllValid(entries)
    }

    /** The store starts empty (`let formEntries = []`). */
    constructor ()
      ensures entries == [] && Valid()
    {
      entries := [];
    }

    /**
     * POST /api/submit. `id` is the clock reading the source takes as the new
     * entry's id; nothing makes it differ from the ids already stored.
     */
    method Create(id: string, f: Fields) returns (r: Response<Entry>)
      modifies this
      ensures !FieldsValid(f) ==> r == ValidationError && entries == old(entries)
      ensures FieldsValid(f) ==>
                r == Ok(Entry(id, f)) && entries == old(entries) + [Entry(id, f)]
      ensures old(Valid()) ==> Valid()
    {
      if !FieldsValid(f) {
        return ValidationError;
      }
      var e := Entry(id, f);
      entries := entries + [e];
      r := Ok(e);
    }

    /** GET /api/data: the whole store, in insertion order. */
    method List() returns (r: seq<Entry>)
      ensures |r| == |entries|
      ensures forall i :: 0 <= i < |r| ==> r[i] == entries[i]
      ensures Valid() ==> AllValid(r)
    {
      r := entries;
    }

    /** GET /api/data/:id: the first entry carrying `id`. */
    method Get(id: string) returns (r: Response<Entry>)
      ensures !r.ValidationError?
      ensures r.NotFound? <==> !HasId(entries, id)
      ensures r.Ok? ==> exists k :: FirstMatch(entries, id, k) && r.value == entries[k]
      ensures Valid() && r.Ok? ==> FieldsValid(r.value.fields)
    {
      var found := Find(entries, id);
      if found.None? {
        return NotFound;
      }
      r := Ok(found.value);
    }

    /**
     * PUT /api/data/:id. The fields are checked before the id is looked up;
     * only the first entry carrying `id` is overwritten, and it keeps its id.
     */
    method Update(id: string, f: Fields) returns (r: Response<Entry>)
      modifies this
      ensures !FieldsValid(f) ==> r == ValidationError && entries == old(entries)
      ensures FieldsValid(f) && !HasId(old(entries), id) ==>
                r == NotFound && entries == old(entries)
      ensures FieldsValid(f) && HasId(old(entries), id) ==>
                exists k :: FirstMatch(old(entries), id, k) &&
                  entries == old(entries)[k := Entry(old(entries)[k].id, f)] &&
                  r == Ok(entries[k])
      ensures |entries| == |old(entries)|
      ensures old(Valid()) ==> Valid()
    {
      if !FieldsValid(f) {
        return ValidationError;
      }
      var index := FindIndex(entries, id);
      if index == -1 {
        return NotFound;
      }
      entries := entries[index := Entry(entries[index].id, f)];
      r := Ok(entries[index]);
    }

    /**
     * DELETE /api/data/:id. The id is looked up with `findIndex`, but the
     * removal is a `filter`, so every entry carrying `id` goes.
     */
    method Delete(id: string) returns (r: Response<()>)
      modifies this
      ensures !r.ValidationError?
      ensures !HasId(old(entries), id) ==> r == NotFound && entries == old(entries)
      ensures HasId(old(entries), id) ==> r == Ok(()) && entries == Filter(old(entries), id)
      ensures HasId(old(entries), id) ==>
                |entries| == |old(entries)| - CountId(old(entries), id) < |old(entries)|
      ensures !HasId(entries, id)
      ensures old(Valid()) ==> Valid()
    {
      var index := FindIndex(entries, id);
      if index == -1 {
        return NotFound;
      }
      if Valid() {
        AllValidFilter(entries, id);
      }
      entries := Filter(entries, id);
      r := Ok(());
    }
  }

  /** Creating with an id nobody holds makes that entry what a later get returns. */
  lemma CreateThenGet(s: seq<Entry>, id: string, f: Fields)
    requires !HasId(s, id)
    ensures Find(s + [Entry(id, f)], id) == Some(Entry(id, f))
  {
    FindAppend(s, Entry(id, f), id);
  }

  /**
   * Two creates in the same clock tick share an id, and a get by that id then
   * returns the first of them, not the one the second create returned.
   */
  lemma CreateThenGetCollision(f1: Fields, f2: Fields)
    requires f1 != f2
    ensures var s := [Entry("1700000000000", f1)] + [Entry("1700000000000", f2)];
            Find(s, "1700000000000") == Some(Entry("1700000000000", f1)) &&
            Find(s, "1700000000000") != Some(Entry("1700000000000", f2))
  {
    var s := [Entry("1700000000000", f1)] + [Entry("1700000000000", f2)];
    assert FirstMatch(s, "1700000000000", 0);
  }

  /** A delete removes both entries that share a colliding id. */
  lemma DeleteRemovesAllCollisions(f1: Fields, f2: Fields)
    ensures var s := [Entry("1700000000000", f1), Entry("1700000000000", f2)];
            Filter(s, "1700000000000") == [] && CountId(s, "1700000000000") == 2
  {
    var s := [Entry("1700000000000", f1), Entry("1700000000000", f2)];
    assert s[1..] == [Entry("1700000000000", f2)];
    assert s[1..][1..] == [];
  }

  /** While ids are unique, a create with a fresh id keeps them unique. */
  lemma UniqueIdsCreate(s: seq<Entry>, id: string, f: Fields)
    requires UniqueIds(s) && !HasId(s, id)
    ensures UniqueIds(s + [Entry(id, f)])
  {
    var t := s + [Entry(id, f)];
    forall i, j | 0 <= i < j < |t| ensures t[i].id != t[j].id {
      if j == |s| { assert t[i] == s[i]; }
    }
  }

  /** An update keeps every id in place, so it keeps ids unique. */
  lemma UniqueIdsUpdate(s: seq<Entry>, k: int, f: Fields)
    requires UniqueIds(s) && 0 <= k < |s|
    ensures UniqueIds(s[k := Entry(s[k].id, f)])
  {
  }

  /**
   * A create, get, update, delete, get round on one entry, a second delete of
   * the same id that finds nothing, then two creates the
   * presence check refuses: one with an empty name and one with age 0.
   */
  method Scenario()
  {
    var store := new Store();
    var ana := Fields(Str("Ana"), Str("a@x.com"), Num(30), Str("hi"));
    var r := store.Create("1700000000000", ana);
    assert r == Ok(Entry("1700000000000", ana));

    var g := store.Get("1700000000000");
    assert FirstMatch(store.entries, "1700000000000", 0);
    assert g == Ok(Entry("1700000000000", ana));

    var anaB := Fields(Str("Ana B"), Str("a@x.com"), Num(31), Str("hi!"));
    var u := store.Update("1700000000000", anaB);
    assert store.entries == [Entry("1700000000000", anaB)];
    assert u == Ok(Entry("1700000000000", anaB));

    var d := store.Delete("1700000000000");
    assert d == Ok(());
    var gone := store.Get("1700000000000");
    assert gone == NotFound;
    var after := store.entries;
    var again := store.Delete("1700000000000");
    assert again == NotFound && store.entries == after;

    var before := store.entries;
    var bad := store.Create("1700000000001", Fields(Str(""), Str("a@x.com"), Num(1), Str("m")));
    assert bad == ValidationError && store.entries == before;
    var zero := store.Create("1700000000002", Fields(Str("Ana"), Str("a@x.com"), Num(0), Str("m")));
    assert zero == ValidationError && store.entries == before;
  }
}
