/**
 * Feedback entries and the pure array helpers the route handlers call on the
 * store: `Array.prototype.find`, `findIndex` and `filter`, each specialised to
 * the predicate the handlers pass (`entry.id === id`, resp. `!==`).
 */
module Entries {
  import opened JsValues

  datatype Option<T> = None | Some(value: T)

  /** The four fields destructured from a request body. */
  datatype Fields = Fields(name: Value, email: Value, age: Value, message: Value)

  /** One stored feedback submission: its id and its four fields. */
  datatype Entry = Entry(id: string, fields: Fields)

  /** The handlers' presence check: every one of the four fields is truthy. */
  predicate FieldsValid(f: Fields)
  {
    Truthy(f.name) && Truthy(f.email) && Truthy(f.age) && Truthy(f.message)
  }

  /** Some entry of `s` carries `id`. */
  predicate HasId(s: seq<Entry>, id: string)
  {
    exists j :: 0 <= j < |s| && s[j].id == id
  }

  /** `k` is the position of the first entry of `s` whose id is `id`. */
  predicate FirstMatch(s: seq<Entry>, id: string, k: int)
  {
    0 <= k < |s| && s[k].id == id && forall j :: 0 <= j < k ==> s[j].id != id
  }

  /** Every stored entry has all four fields present. */
  predicate AllValid(s: seq<Entry>)
  {
    forall i :: 0 <= i < |s| ==> FieldsValid(s[i].fields)
  }

  /** No two entries of `s` share an id. */
  predicate UniqueIds(s: seq<Entry>)
  {
    forall i, j :: 0 <= i < j < |s| ==> s[i].id != s[j].id
  }

  /** `s.findIndex(e => e.id === id)`: the first matching position, or -1. */
  function FindIndex(s: seq<Entry>, id: string): (r: int)
    ensures -1 <= r < |s|
    ensures r == -1 <==> !HasId(s, id)
    ensures r != -1 ==> FirstMatch(s, id, r)
  {
    if |s| == 0 then -1
    else if s[0].id == id then 0
    else
      var k := FindIndex(s[1..], id);
      assert forall j :: 1 <= j < |s| ==> s[j] == s[1..][j - 1];
      if k == -1 then -1 else k + 1
  }

  /** `s.find(e => e.id === id)`: the first matching entry, or `undefined`. */
  function Find(s: seq<Entry>, id: string): (r: Option<Entry>)
    ensures r.None? <==> !HasId(s, id)
    ensures r.Some? ==> exists k :: FirstMatch(s, id, k) && r.value == s[k]
  {
    if |s| == 0 then None
    else if s[0].id == id then
      assert FirstMatch(s, id, 0);
      Some(s[0])
    else
      var r := Find(s[1..], id);
      assert forall j :: 1 <= j < |s| ==> s[j] == s[1..][j - 1];
      if r.Some? then
        var k :| FirstMatch(s[1..], id, k) && r.value == s[1..][k];
        assert FirstMatch(s, id, k + 1);
        r
      else
        r
  }

  /** The number of entries of `s` whose id is `id`. */
  function CountId(s: seq<Entry>, id: string): (n: nat)
    ensures n <= |s|
    ensures n == 0 <==> !HasId(s, id)
  {
    if |s| == 0 then 0
    else
      assert forall j :: 1 <= j < |s| ==> s[j] == s[1..][j - 1];
      (if s[0].id == id then 1 else 0) + CountId(s[1..], id)
  }

  /** `s.filter(e => e.id !== id)`: every entry except those carrying `id`. */
  function Filter(s: seq<Entry>, id: string): (r: seq<Entry>)
    ensures |r| == |s| - CountId(s, id)
    ensures forall k :: 0 <= k < |r| ==> r[k].id != id
  {
    if |s| == 0 then []
    else
      var rest := Filter(s[1..], id);
      if s[0].id != id then [s[0]] + rest else rest
  }

  /** An entry survives the filter exactly when it was stored and carries another id. */
  lemma {:induction false} FilterMembers(s: seq<Entry>, id: string)
    ensures forall e :: e in Filter(s, id) <==> e in s && e.id != id
  {
    if |s| > 0 {
      FilterMembers(s[1..], id);
      assert forall e :: e in s <==> e == s[0] || e in s[1..];
    }
  }

  /** Adds one to every position of `t`: `x` is in the result exactly when `x - 1` is in `t`. */
  function Shift(t: seq<int>): (r: seq<int>)
    ensures forall x :: x in r <==> x - 1 in t
  {
    var r := seq(|t|, k requires 0 <= k < |t| => t[k] + 1);
    assert forall k :: 0 <= k < |t| ==> r[k] == t[k] + 1;
    assert forall x :: x - 1 in t ==> x in r by {
      forall x | x - 1 in t ensures x in r {
        var k :| 0 <= k < |t| && t[k] == x - 1;
        assert r[k] == x;
      }
    }
    r
  }

  /** The positions of `s` that `Filter(s, id)` keeps, in increasing order. */
  function Kept(s: seq<Entry>, id: string): (r: seq<int>)
  {
    if |s| == 0 then []
    else if s[0].id != id then [0] + Shift(Kept(s[1..], id))
    else Shift(Kept(s[1..], id))
  }

  /** Each kept position is a position of `s`, and Filter reads `s` there. */
  lemma {:induction false} KeptReadsFilter(s: seq<Entry>, id: string)
    ensures |Kept(s, id)| == |Filter(s, id)|
    ensures forall k :: 0 <= k < |Kept(s, id)| ==>
              0 <= Kept(s, id)[k] < |s| && Filter(s, id)[k] == s[Kept(s, id)[k]]
  {
    if |s| > 0 {
      KeptReadsFilter(s[1..], id);
    }
  }

  /** The kept positions are strictly increasing. */
  lemma {:induction false} KeptIncreasing(s: seq<Entry>, id: string)
    ensures forall k :: 0 <= k < |Kept(s, id)| ==> Kept(s, id)[k] >= 0
    ensures forall k, l :: 0 <= k < l < |Kept(s, id)| ==> Kept(s, id)[k] < Kept(s, id)[l]
  {
    if |s| > 0 {
      KeptIncreasing(s[1..], id);
    }
  }

  /** A position is kept exactly when its entry does not carry `id`. */
  lemma {:induction false} KeptExactly(s: seq<Entry>, id: string)
    ensures forall i :: 0 <= i < |s| ==> (i in Kept(s, id) <==> s[i].id != id)
  {
    if |s| > 0 {
      KeptExactly(s[1..], id);
      KeptIncreasing(s[1..], id);
      var rest := Kept(s[1..], id);
      assert 0 !in Shift(rest);
    }
  }

  /**
   * Filter keeps the relative order of what it keeps: its result is `s` read at
   * a strictly increasing run of positions, and those positions are exactly the
   * ones whose id differs from `id`.
   */
  lemma FilterKeepsOrder(s: seq<Entry>, id: string)
    ensures |Kept(s, id)| == |Filter(s, id)|
    ensures forall k :: 0 <= k < |Kept(s, id)| ==>
              0 <= Kept(s, id)[k] < |s| && Filter(s, id)[k] == s[Kept(s, id)[k]]
    ensures forall k, l :: 0 <= k < l < |Kept(s, id)| ==> Kept(s, id)[k] < Kept(s, id)[l]
    ensures forall i :: 0 <= i < |s| ==> (i in Kept(s, id) <==> s[i].id != id)
  {
    KeptReadsFilter(s, id);
    KeptIncreasing(s, id);
    KeptExactly(s, id);
  }

  /** Filter distributes over concatenation, so it works piecewise. */
  lemma {:induction false} FilterConcat(a: seq<Entry>, b: seq<Entry>, id: string)
    ensures Filter(a + b, id) == Filter(a, id) + Filter(b, id)
  {
    if |a| == 0 {
      assert a + b == b;
    } else {
      assert (a + b)[1..] == a[1..] + b;
      FilterConcat(a[1..], b, id);
    }
  }

  /** Filtering out an id that nobody carries changes nothing. */
  lemma {:induction false} FilterAbsent(s: seq<Entry>, id: string)
    requires !HasId(s, id)
    ensures Filter(s, id) == s
  {
    if |s| > 0 {
      assert !HasId(s[1..], id) by {
        assert forall j :: 0 <= j < |s| - 1 ==> s[1..][j] == s[j + 1];
      }
      FilterAbsent(s[1..], id);
      assert s == [s[0]] + s[1..];
    }
  }

  /**
   * With unique ids, exactly one entry carries a present id, and filtering
   * removes just that entry, at its first (and only) position.
   */
  lemma FilterUnique(s: seq<Entry>, id: string)
    requires UniqueIds(s) && HasId(s, id)
    ensures CountId(s, id) == 1
    ensures Filter(s, id) == s[..FindIndex(s, id)] + s[FindIndex(s, id) + 1..]
    ensures |Filter(s, id)| == |s| - 1
  {
    var i := FindIndex(s, id);
    var post := s[i + 1..];
    assert !HasId(post, id) by {
      forall j | 0 <= j < |post| ensures post[j].id != id {
        assert post[j] == s[i + 1 + j];
        assert s[i].id != s[i + 1 + j].id;
      }
    }
    FilterOnlyAt(s, id, i);
  }

  /** If the entry at `i` is the only one carrying `id`, filtering removes just it. */
  lemma FilterOnlyAt(s: seq<Entry>, id: string, i: int)
    requires FirstMatch(s, id, i) && !HasId(s[i + 1..], id)
    ensures Filter(s, id) == s[..i] + s[i + 1..]
  {
    var pre, post := s[..i], s[i + 1..];
    assert !HasId(pre, id) by {
      forall j | 0 <= j < |pre| ensures pre[j].id != id { assert pre[j] == s[j]; }
    }
    calc {
      Filter(s, id);
      { assert s == (pre + [s[i]]) + post; }
      Filter((pre + [s[i]]) + post, id);
      { FilterConcat(pre + [s[i]], post, id); }
      Filter(pre + [s[i]], id) + Filter(post, id);
      { FilterConcat(pre, [s[i]], id); }
      Filter(pre, id) + Filter([s[i]], id) + Filter(post, id);
      { FilterAbsent(pre, id); FilterAbsent(post, id); assert Filter([s[i]], id) == []; }
      pre + post;
    }
  }

  /** `find` and `findIndex` agree: find returns the entry at findIndex's position. */
  lemma FindAgreesWithFindIndex(s: seq<Entry>, id: string)
    ensures Find(s, id) == if FindIndex(s, id) == -1 then None else Some(s[FindIndex(s, id)])
  {
    var r, i := Find(s, id), FindIndex(s, id);
    if r.Some? {
      var k :| FirstMatch(s, id, k) && r.value == s[k];
      assert k == i;
    }
  }

  /** Appending an entry does not change which entry `find` reaches first,
      unless no earlier entry matched. */
  lemma {:induction false} FindAppend(s: seq<Entry>, e: Entry, id: string)
    ensures Find(s + [e], id) ==
            if HasId(s, id) then Find(s, id)
            else if e.id == id then Some(e)
            else None
  {
    if |s| == 0 {
      assert [] + [e] == [e];
    } else {
      assert (s + [e])[1..] == s[1..] + [e];
      assert HasId(s, id) <==> s[0].id == id || HasId(s[1..], id) by {
        assert forall j :: 1 <= j < |s| ==> s[j] == s[1..][j - 1];
      }
      FindAppend(s[1..], e, id);
    }
  }

  /** Overwriting the first match keeps that slot the first match of its id. */
  lemma FindAfterReplace(s: seq<Entry>, id: string, f: Fields)
    requires HasId(s, id)
    ensures Find(s[FindIndex(s, id) := Entry(id, f)], id) == Some(Entry(id, f))
  {
    var i := FindIndex(s, id);
    var t := s[i := Entry(id, f)];
    assert FirstMatch(t, id, i);
    FindAgreesWithFindIndex(t, id);
    var k := FindIndex(t, id);
    assert k == i;
  }

  /** Appending an entry whose fields are valid keeps every stored entry valid. */
  lemma AllValidAppend(s: seq<Entry>, e: Entry)
    requires AllValid(s) && FieldsValid(e.fields)
    ensures AllValid(s + [e])
  {
  }

  /** Filter keeps only stored entries, so validity survives a delete. */
  lemma AllValidFilter(s: seq<Entry>, id: string)
    requires AllValid(s)
    ensures AllValid(Filter(s, id))
  {
    var r := Filter(s, id);
    FilterMembers(s, id);
    forall i | 0 <= i < |r| ensures FieldsValid(r[i].fields) {
      assert r[i] in r;
      var j :| 0 <= j < |s| && s[j] == r[i];
    }
  }

  /** Filter keeps a subset of the entries, so unique ids stay unique. */
  lemma UniqueIdsFilter(s: seq<Entry>, id: string)
    requires UniqueIds(s)
    ensures UniqueIds(Filter(s, id))
  {
    FilterKeepsOrder(s, id);
    var r, K := Filter(s, id), Kept(s, id);
    forall i, j | 0 <= i < j < |r| ensures r[i].id != r[j].id {
      assert K[i] < K[j];
    }
  }
}
