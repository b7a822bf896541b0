/** ORDER BY over a total order: the one strictly increasing sequence of a finite set of keys. */
module Ordering {
  import opened Common

  /** A sort key. `rank` orders statuses, `id` breaks every tie. */
  datatype Entry = Entry(rank: int, position: real, id: Id)

  predicate Less(a: Entry, b: Entry) {
    || a.rank < b.rank
    || (a.rank == b.rank && a.position < b.position)
    || (a.rank == b.rank && a.position == b.position && a.id < b.id)
  }

  ghost predicate Increasing(s: seq<Entry>) {
    forall i, j | 0 <= i < j < |s| :: Less(s[i], s[j])
  }

  ghost function Elements(s: seq<Entry>): set<Entry> {
    set e | e in s
  }

  predicate IsLeast(m: Entry, entries: set<Entry>) {
    m in entries && forall e | e in entries :: e == m || Less(m, e)
  }

  lemma {:induction false} LeastExists(entries: set<Entry>)
    requires entries != {}
    ensures exists m :: IsLeast(m, entries)
  {
    var e :| e in entries;
    if entries == {e} {
      assert IsLeast(e, entries);
    } else {
      LeastExists(entries - {e});
      var m :| IsLeast(m, entries - {e});
      assert e != m;
      var least := if Less(e, m) then e else m;
      forall x | x in entries ensures x == least || Less(least, x) {
        assert x == e || x in entries - {e};
      }
      assert IsLeast(least, entries);
    }
  }

  function Sort(entries: set<Entry>): (s: seq<Entry>)
    ensures Increasing(s) && Elements(s) == entries
  {
    if entries == {} then []
    else
      LeastExists(entries);
      var m :| IsLeast(m, entries);
      var rest := Sort(entries - {m});
      assert forall e :: e in Elements(rest) <==> e in rest;
      assert forall e :: e in [m] + rest <==> e == m || e in rest;
      [m] + rest
  }

  lemma NoElements(s: seq<Entry>)
    ensures Elements(s) == {} <==> s == []
  {
    if s != [] {
      assert s[0] in Elements(s);
    }
  }

  lemma {:induction false} SameListing(a: seq<Entry>, b: seq<Entry>)
    requires Increasing(a) && Increasing(b) && Elements(a) == Elements(b)
    ensures a == b
  {
    if a == [] {
      NoElements(b);
    } else {
      assert a[0] in Elements(b) && b != [];
      assert b[0] in Elements(a);
      assert a[0] == b[0];
      forall e ensures e in a[1..] <==> e in b[1..] {
        assert e in a <==> e in Elements(a);
        assert e in b <==> e in Elements(b);
        assert e in a <==> e == a[0] || e in a[1..];
        assert e in b <==> e == b[0] || e in b[1..];
        assert a[0] !in a[1..] && b[0] !in b[1..];
      }
      SameListing(a[1..], b[1..]);
    }
  }

  /** Any increasing listing of the set is its sort. */
  lemma {:induction false} SortIs(s: seq<Entry>, entries: set<Entry>)
    requires Increasing(s) && Elements(s) == entries
    ensures Sort(entries) == s
  {
    SameListing(Sort(entries), s);
  }

  function Ids(s: seq<Entry>): (ids: seq<Id>)
    ensures |ids| == |s| && forall i | 0 <= i < |s| :: ids[i] == s[i].id
  {
    seq(|s|, i requires 0 <= i < |s| => s[i].id)
  }

  /** `ids` with one identifier taken out. */
  function Without(ids: seq<Id>, id: Id): seq<Id> {
    if ids == [] then []
    else if ids[0] == id then Without(ids[1..], id)
    else [ids[0]] + Without(ids[1..], id)
  }

  function Keep(s: seq<Entry>, keep: Entry -> bool): (r: seq<Entry>)
    ensures forall e :: e in r <==> e in s && keep(e)
  {
    if s == [] then []
    else if keep(s[0]) then [s[0]] + Keep(s[1..], keep)
    else Keep(s[1..], keep)
  }

  lemma KeepIncreasing(s: seq<Entry>, keep: Entry -> bool)
    requires Increasing(s)
    ensures Increasing(Keep(s, keep))
  {
    if s == [] {
    } else {
      KeepIncreasing(s[1..], keep);
      forall e | e in Keep(s[1..], keep) ensures Less(s[0], e) {
        assert e in s[1..];
      }
    }
  }

  lemma WithoutIsKeep(s: seq<Entry>, id: Id)
    ensures Without(Ids(s), id) == Ids(Keep(s, (e: Entry) => e.id != id))
  {
    if s == [] {
    } else {
      WithoutIsKeep(s[1..], id);
      assert Ids(s)[1..] == Ids(s[1..]);
    }
  }

  /** Filtering commutes with sorting. */
  lemma SortOfKeep(entries: set<Entry>, keep: Entry -> bool)
    ensures Sort(set e | e in entries && keep(e)) == Keep(Sort(entries), keep)
  {
    KeepIncreasing(Sort(entries), keep);
    assert forall e :: e in Sort(entries) <==> e in Elements(Sort(entries));
    SortIs(Keep(Sort(entries), keep), set e | e in entries && keep(e));
  }

  lemma SortAppend(entries: set<Entry>, last: Entry)
    requires forall e | e in entries :: Less(e, last)
    ensures Sort(entries + {last}) == Sort(entries) + [last]
  {
    forall e | e in Sort(entries) ensures Less(e, last) {
      assert e in Elements(Sort(entries));
    }
    SortIs(Sort(entries) + [last], entries + {last});
  }

  lemma Rank(s: seq<Entry>, e: Entry) returns (k: nat)
    requires Increasing(s) && e !in Elements(s)
    ensures k <= |s|
    ensures forall i | 0 <= i < k :: Less(s[i], e)
    ensures forall i | k <= i < |s| :: Less(e, s[i])
  {
    k := 0;
    while k < |s| && Less(s[k], e)
      invariant k <= |s|
      invariant forall i | 0 <= i < k :: Less(s[i], e)
    {
      k := k + 1;
    }
    forall i | k <= i < |s| ensures Less(e, s[i]) {
      assert s[k] in Elements(s);
    }
  }

  lemma InsertIncreasing(s: seq<Entry>, k: nat, e: Entry)
    requires Increasing(s) && k <= |s|
    requires forall i | 0 <= i < k :: Less(s[i], e)
    requires forall i | k <= i < |s| :: Less(e, s[i])
    ensures Increasing(s[..k] + [e] + s[k..])
  {
    var r := s[..k] + [e] + s[k..];
    forall i, j | 0 <= i < j < |r| ensures Less(r[i], r[j]) {
      assert i < k ==> r[i] == s[i];
      assert k < j ==> r[j] == s[j - 1];
      assert k < i ==> r[i] == s[i - 1];
      assert j < k ==> r[j] == s[j];
    }
  }

  /** Inserting splits the sorted sequence at the rank of the new key. */
  lemma SortInsert(entries: set<Entry>, e: Entry) returns (k: nat)
    requires e !in entries
    ensures k <= |Sort(entries)|
    ensures Sort(entries + {e}) == Sort(entries)[..k] + [e] + Sort(entries)[k..]
    ensures forall i | 0 <= i < k :: Less(Sort(entries)[i], e)
    ensures forall i | k <= i < |Sort(entries)| :: Less(e, Sort(entries)[i])
  {
    var s := Sort(entries);
    k := Rank(s, e);
    assert forall x :: x in s <==> x in Elements(s);
    assert s == s[..k] + s[k..];
    var r := s[..k] + [e] + s[k..];
    assert forall x :: x in r <==> x == e || x in s;
    InsertIncreasing(s, k, e);
    SortIs(r, entries + {e});
  }
}
