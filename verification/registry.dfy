/** One listener registry of the chat socket: an ordered sequence of
    listener records, appended to by the add operations and filtered by id
    by the remove operations. Handlers are opaque closures in the program,
    so a record keeps only its caller-chosen id and a tag naming its handler.
 */
module Registry {

  /** A listener record `{id, f}`; `tag` stands for the handler `f`. */
  datatype Listener = Listener(id: string, tag: nat)

  /** The ids of a registry, position by position. */
  function Ids(rs: seq<Listener>): (ids: seq<string>)
    ensures |ids| == |rs|
    ensures forall i :: 0 <= i < |rs| ==> ids[i] == rs[i].id
  {
    seq(|rs|, i requires 0 <= i < |rs| => rs[i].id)
  }

  /** How many records of `rs` carry the id `id`, read off the multiset of
      ids; independent of the order of the records. */
  function Occurrences(rs: seq<Listener>, id: string): nat
  {
    multiset(Ids(rs))[id]
  }

  /** True iff no record of `rs` carries the id `id`. */
  predicate Absent(rs: seq<Listener>, id: string)
  {
    forall i :: 0 <= i < |rs| ==> rs[i].id != id
  }

  /** The records of `rs` whose id differs from `id`, in their original
      relative order: the array filter every remove operation applies. */
  function Without(rs: seq<Listener>, id: string): (r: seq<Listener>)
    ensures |r| <= |rs|
    ensures forall l :: l in r <==> l in rs && l.id != id
    ensures Absent(r, id)
  {
    if |rs| == 0 then []
    else
      var kept := Without(rs[..|rs| - 1], id);
      if rs[|rs| - 1].id == id then kept else kept + [rs[|rs| - 1]]
  }

  /** A non-empty sequence is its front followed by its last element. */
  lemma SplitLast<T>(xs: seq<T>)
    requires |xs| > 0
    ensures xs[..|xs| - 1] + [xs[|xs| - 1]] == xs
  {
  }

  /** Concatenation is associative. */
  lemma AppendAssoc<T>(a: seq<T>, b: seq<T>, c: seq<T>)
    ensures (a + b) + c == a + (b + c)
  {
  }

  lemma IdsAppend(rs: seq<Listener>, l: Listener)
    ensures Ids(rs + [l]) == Ids(rs) + [l.id]
  {
  }

  lemma IdsConcat(a: seq<Listener>, b: seq<Listener>)
    ensures Ids(a + b) == Ids(a) + Ids(b)
  {
  }

  /** Appending one record adds one to the occurrences of its own id and
      leaves every other id's count alone. */
  lemma OccurrencesAppend(rs: seq<Listener>, l: Listener, id: string)
    ensures Occurrences(rs + [l], id)
         == Occurrences(rs, id) + (if l.id == id then 1 else 0)
  {
    IdsAppend(rs, l);
    assert multiset(Ids(rs) + [l.id]) == multiset(Ids(rs)) + multiset{l.id};
  }

  /** Occurrences is additive over concatenation. */
  lemma OccurrencesConcat(a: seq<Listener>, b: seq<Listener>, id: string)
    ensures Occurrences(a + b, id) == Occurrences(a, id) + Occurrences(b, id)
  {
    IdsConcat(a, b);
    assert multiset(Ids(a) + Ids(b)) == multiset(Ids(a)) + multiset(Ids(b));
  }

  /** The count returned by a remove, `length - filtered.length`, is exactly
      the number of records whose id matched. */
  lemma {:induction false} WithoutCount(rs: seq<Listener>, id: string)
    ensures |rs| - |Without(rs, id)| == Occurrences(rs, id)
    decreases |rs|
  {
    if |rs| == 0 {
      assert Ids(rs) == [];
    } else {
      var init, last := rs[..|rs| - 1], rs[|rs| - 1];
      SplitLast(rs);
      WithoutCount(init, id);
      OccurrencesAppend(init, last, id);
    }
  }

  /** Absence of the id, stated by position and by count, agree. */
  lemma {:induction false} AbsentIffNoOccurrences(rs: seq<Listener>, id: string)
    ensures Absent(rs, id) <==> Occurrences(rs, id) == 0
  {
    if Absent(rs, id) {
      assert id !in multiset(Ids(rs));
    } else {
      var i :| 0 <= i < |rs| && rs[i].id == id;
      assert Ids(rs)[i] == id;
      assert id in multiset(Ids(rs));
    }
  }

  /** Filtering out an id that no record carries changes nothing; filtering
      out a present id always shortens the registry. */
  lemma {:induction false} WithoutUnchangedIffAbsent(rs: seq<Listener>, id: string)
    ensures Without(rs, id) == rs <==> Absent(rs, id)
    decreases |rs|
  {
    WithoutCount(rs, id);
    AbsentIffNoOccurrences(rs, id);
    if Absent(rs, id) && |rs| > 0 {
      var init, last := rs[..|rs| - 1], rs[|rs| - 1];
      assert Absent(init, id) by {
        forall i | 0 <= i < |init| ensures init[i].id != id {
          assert init[i] == rs[i];
        }
      }
      WithoutUnchangedIffAbsent(init, id);
      SplitLast(rs);
    }
  }

  /** A second remove of the same id finds nothing left to remove. */
  lemma WithoutIdempotent(rs: seq<Listener>, id: string)
    ensures Without(Without(rs, id), id) == Without(rs, id)
    ensures Occurrences(Without(rs, id), id) == 0
  {
    WithoutUnchangedIffAbsent(Without(rs, id), id);
    AbsentIffNoOccurrences(Without(rs, id), id);
  }

  /** Order preservation: filtering a concatenation filters each part and
      keeps the parts in order. Together with the single-record case this
      pins the result down to "the non-matching records, in order". */
  lemma {:induction false} WithoutConcat(a: seq<Listener>, b: seq<Listener>, id: string)
    ensures Without(a + b, id) == Without(a, id) + Without(b, id)
    decreases |b|
  {
    if |b| == 0 {
      assert a + b == a;
    } else {
      var init, last := b[..|b| - 1], b[|b| - 1];
      assert a + b == (a + init) + [last];
      assert (a + b)[..|a + b| - 1] == a + init;
      assert b[..|b| - 1] == init;
      WithoutConcat(a, init, id);
    }
  }

  /** A single record is kept exactly when its id differs. */
  lemma WithoutSingle(l: Listener, id: string)
    ensures Without([l], id) == (if l.id == id then [] else [l])
  {
    assert [l][..0] == [];
  }

  /** The filter as the program runs it: a left-to-right pass keeping the
      non-matching records, then the count as old length minus new length. */
  method FilterOut(rs: seq<Listener>, id: string) returns (kept: seq<Listener>, removed: nat)
    ensures kept == Without(rs, id)
    ensures removed == Occurrences(rs, id)
    ensures removed == |rs| - |kept|
  {
    kept := [];
    var i := 0;
    while i < |rs|
      invariant 0 <= i <= |rs|
      invariant kept == Without(rs[..i], id)
    {
      assert rs[..i + 1][..i] == rs[..i];
      if rs[i].id != id {
        kept := kept + [rs[i]];
      }
      i := i + 1;
    }
    assert rs[..i] == rs;
    WithoutCount(rs, id);
    removed := |rs| - |kept|;
  }
}
