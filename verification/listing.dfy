/**
 The body of GET /tasks: one JSON object whose members are the stored
 (id, task) pairs. encoding/json writes the members of a map in ascending key
 order, comparing keys byte by byte; on UTF-8 text that is the order of the
 code points, which is what `Less` compares.
 */
module Listing {
  import opened TaskStore
  import opened Handlers

  /** One member of the JSON object: a key and the task under it. */
  type Entry = (string, Task)

  /** Strict lexicographic order on strings, by code point. */
  predicate Less(a: string, b: string)
  {
    if |a| == 0 then |b| > 0
    else if |b| == 0 then false
    else if a[0] == b[0] then Less(a[1..], b[1..])
    else a[0] < b[0]
  }

  lemma {:induction false} LessIrreflexive(a: string)
    ensures !Less(a, a)
  {
    if |a| > 0 {
      LessIrreflexive(a[1..]);
    }
  }

  lemma {:induction false} LessTransitive(a: string, b: string, c: string)
    requires Less(a, b) && Less(b, c)
    ensures Less(a, c)
  {
    if |a| > 0 && |b| > 0 && |c| > 0 && a[0] == b[0] && b[0] == c[0] {
      LessTransitive(a[1..], b[1..], c[1..]);
    }
  }

  /** Any two different strings are ordered one way or the other. */
  lemma {:induction false} LessTotal(a: string, b: string)
    requires a != b
    ensures Less(a, b) || Less(b, a)
  {
    if |a| > 0 && |b| > 0 && a[0] == b[0] {
      assert a == [a[0]] + a[1..] && b == [b[0]] + b[1..];
      LessTotal(a[1..], b[1..]);
    }
  }

  /** Keys strictly ascending, hence no key appears twice. */
  predicate StrictlySorted(es: seq<Entry>)
  {
    forall i, j :: 0 <= i < j < |es| ==> Less(es[i].0, es[j].0)
  }

  /** Puts `e` into its place in a sorted listing that does not yet hold its key. */
  function Insert(es: seq<Entry>, e: Entry): (r: seq<Entry>)
    requires StrictlySorted(es)
    requires forall i :: 0 <= i < |es| ==> es[i].0 != e.0
    ensures StrictlySorted(r)
    ensures |r| == |es| + 1
    ensures forall x :: x in r <==> x in es || x == e
    decreases |es|
  {
    if es == [] then [e]
    else if Less(e.0, es[0].0) then
      assert forall j :: 0 <= j < |es| ==> Less(e.0, es[j].0) by {
        forall j | 0 <= j < |es| ensures Less(e.0, es[j].0) {
          if j > 0 { LessTransitive(e.0, es[0].0, es[j].0); }
        }
      }
      [e] + es
    else
      LessTotal(e.0, es[0].0);
      var tail := Insert(es[1..], e);
      assert forall x :: x in tail ==> Less(es[0].0, x.0) by {
        forall x | x in tail ensures Less(es[0].0, x.0) {
          if x != e {
            var j :| 0 <= j < |es[1..]| && es[1..][j] == x;
            assert es[j + 1] == x;
          }
        }
      }
      [es[0]] + tail
  }

  /**
   What a client decoding the object into a map gets: members are applied in
   order, so a later duplicate key would replace an earlier one.
   */
  function Decode(es: seq<Entry>): (m: Store)
    ensures forall i :: 0 <= i < |es| ==> es[i].0 in m
  {
    if es == [] then map[]
    else Decode(es[..|es| - 1])[es[|es| - 1].0 := es[|es| - 1].1]
  }

  /** `es` lists exactly the entries of `m`, each key once, in ascending order. */
  predicate IsListingOf(es: seq<Entry>, m: Store)
  {
    && StrictlySorted(es)
    && (forall i :: 0 <= i < |es| ==> es[i].0 in m && es[i].1 == m[es[i].0])
    && (forall k :: k in m ==> (k, m[k]) in es)
  }

  /** Dropping the last member of a listing gives a listing of the store without that key. */
  lemma ListingWithoutLast(es: seq<Entry>, m: Store)
    requires IsListingOf(es, m)
    requires es != []
    ensures IsListingOf(es[..|es| - 1], m - {es[|es| - 1].0})
  {
    var n := |es| - 1;
    var last := es[n];
    var front := es[..n];
    var m' := m - {last.0};
    forall k | k in m' ensures (k, m'[k]) in front {
      var i :| 0 <= i < |es| && es[i] == (k, m[k]);
      assert i != n;
      assert front[i] == (k, m'[k]);
    }
    forall i | 0 <= i < |front| ensures front[i].0 in m' && front[i].1 == m'[front[i].0] {
      assert Less(es[i].0, last.0);
      LessIrreflexive(last.0);
    }
  }

  /** Decoding a listing of `m` gives back `m`. */
  lemma {:induction false} DecodeListing(es: seq<Entry>, m: Store)
    requires IsListingOf(es, m)
    ensures Decode(es) == m
    decreases |es|
  {
    if es == [] {
      assert forall k :: k !in m;
    } else {
      var last := es[|es| - 1];
      ListingWithoutLast(es, m);
      DecodeListing(es[..|es| - 1], m - {last.0});
      assert last.0 in m && m[last.0] == last.1;
      assert m == (m - {last.0})[last.0 := last.1];
    }
  }

  /** Builds the listing of the whole store. */
  method ListEntries(m: Store) returns (es: seq<Entry>)
    ensures StrictlySorted(es)
    ensures forall i :: 0 <= i < |es| ==> es[i].0 in m && es[i].1 == m[es[i].0]
    ensures forall k :: k in m ==> (k, m[k]) in es
    ensures Decode(es) == m
  {
    es := [];
    var rest := m.Keys;
    while rest != {}
      invariant rest <= m.Keys
      invariant StrictlySorted(es)
      invariant forall e :: e in es ==> e.0 in m && e.0 !in rest && e.1 == m[e.0]
      invariant forall k :: k in m && k !in rest ==> (k, m[k]) in es
      decreases rest
    {
      var k :| k in rest;
      es := Insert(es, (k, m[k]));
      rest := rest - {k};
    }
    DecodeListing(es, m);
  }

  /**
   GET /tasks on the wire: the list handler's status, and its snapshot of the
   store written out as a sorted listing.
   */
  method ListResponse(m: Store) returns (status: int, es: seq<Entry>)
    ensures status == StatusOK
    ensures StrictlySorted(es)
    ensures forall i :: 0 <= i < |es| ==> es[i].0 in m && es[i].1 == m[es[i].0]
    ensures forall k :: k in m ==> (k, m[k]) in es
    ensures Decode(es) == m
  {
    var o := List(m);
    status := o.reply.status;
    es := ListEntries(o.reply.payload.tasks);
  }
}
