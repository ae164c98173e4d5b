/**
 * The in-memory giveaway registry `GIVEAWAYS`: a dict from id to record. A
 * Python dict iterates in insertion order, so the store is a sequence of
 * entries with pairwise distinct ids, oldest first.
 */
module Registry {
  import opened Common

  /** One stored giveaway (the dict value). */
  datatype Giveaway = Giveaway(
    fromChat: Option<string>,     // title of the chat the post was forwarded from
    text: string,
    links: seq<string>,
    deadline: Option<Timestamp>,
    archived: bool
  )

  datatype Entry = Entry(id: Id, record: Giveaway)

  type Store = seq<Entry>

  function Ids(s: Store): set<Id> {
    set k | 0 <= k < |s| :: s[k].id
  }

  /** Dict keys are unique. */
  predicate Valid(s: Store) {
    forall i, j :: 0 <= i < j < |s| ==> s[i].id != s[j].id
  }

  lemma IdsCons(s: Store)
    requires s != []
    ensures Ids(s) == {s[0].id} + Ids(s[1..])
  {
    assert forall k :: 0 < k < |s| ==> s[k].id == s[1..][k - 1].id;
  }

  lemma IdsAppend(s: Store, e: Entry)
    ensures Ids(s + [e]) == Ids(s) + {e.id}
  {
    var r := s + [e];
    assert forall k :: 0 <= k < |s| ==> r[k] == s[k];
    assert r[|s|] == e;
  }

  /** Two stores with the same id at every position have the same ids and the same validity. */
  lemma SameIds(s: Store, r: Store)
    requires |r| == |s| && forall k :: 0 <= k < |s| ==> r[k].id == s[k].id
    ensures Ids(r) == Ids(s)
    ensures Valid(s) ==> Valid(r)
  {
  }

  /** `GIVEAWAYS.get(id)`: the record stored under `id`, if any. */
  function Get(s: Store, id: Id): (r: Option<Giveaway>)
    ensures r.Some? <==> id in Ids(s)
    ensures r.Some? ==> Entry(id, r.value) in s
  {
    if s == [] then None
    else if s[0].id == id then Some(s[0].record)
    else
      IdsCons(s);
      Get(s[1..], id)
  }

  /** With distinct ids, looking up the id of any entry finds that entry's record. */
  lemma {:induction false} GetAt(s: Store, k: nat)
    requires Valid(s) && k < |s|
    ensures Get(s, s[k].id) == Some(s[k].record)
  {
    if k > 0 {
      assert s[0].id != s[k].id;
      assert Valid(s[1..]);
      GetAt(s[1..], k - 1);
      assert s[1..][k - 1] == s[k];
    }
  }

  /** Appending an entry under a fresh id keeps ids distinct. */
  lemma AppendFresh(s: Store, e: Entry)
    requires Valid(s) && e.id !in Ids(s)
    ensures Valid(s + [e])
    ensures Ids(s + [e]) == Ids(s) + {e.id}
  {
    var r := s + [e];
    assert forall j :: 0 <= j < |s| ==> r[j] == s[j];
    assert forall j :: 0 <= j < |s| ==> s[j].id in Ids(s);
    IdsAppend(s, e);
  }

  /** Lookup in a store with one entry appended at the end. */
  lemma {:induction false} GetAppend(s: Store, e: Entry, x: Id)
    ensures Get(s + [e], x) == if x in Ids(s) then Get(s, x) else if x == e.id then Some(e.record) else None
  {
    if s == [] {
      assert s + [e] == [e];
      assert Ids(s) == {};
    } else {
      var r := s + [e];
      assert r[0] == s[0] && r[1..] == s[1..] + [e];
      IdsCons(s);
      if s[0].id != x {
        GetAppend(s[1..], e, x);
      }
    }
  }

  /** The record the bot stores for a new giveaway (bot.py `GIVEAWAYS[gid] = {...}`). */
  function NewRecord(fromChat: Option<string>, text: string, links: seq<string>, deadline: Option<Timestamp>): Giveaway {
    Giveaway(fromChat, text, links, deadline, false)
  }

  /**
   * Store a new giveaway under an id that is not yet in use. The new entry
   * comes last in iteration order.
   */
  function Create(s: Store, id: Id, fromChat: Option<string>, text: string, links: seq<string>,
                  deadline: Option<Timestamp>): (r: Store)
    requires Valid(s) && id !in Ids(s)
    ensures Valid(r)
    ensures Get(r, id) == Some(Giveaway(fromChat, text, links, deadline, false))
    ensures forall other :: other != id ==> Get(r, other) == Get(s, other)
    ensures Ids(r) == Ids(s) + {id}
    ensures |r| == |s| + 1 && r[..|s|] == s
  {
    var e := Entry(id, NewRecord(fromChat, text, links, deadline));
    var r := s + [e];
    AppendFresh(s, e);
    GetAppend(s, e, id);
    forall other | other != id
      ensures Get(r, other) == Get(s, other)
    {
      GetAppend(s, e, other);
    }
    r
  }

  /**
   * `if gid in GIVEAWAYS: GIVEAWAYS[gid]["archived"] = True`: mark the record
   * archived in place; an unknown id leaves the store as it is.
   */
  function Archive(s: Store, id: Id): (r: Store)
    ensures |r| == |s|
    ensures forall k :: 0 <= k < |s| ==> r[k].id == s[k].id
    ensures forall k :: 0 <= k < |s| ==> r[k].record.archived == (s[k].record.archived || s[k].id == id)
    ensures forall k :: 0 <= k < |s| ==> r[k].record == s[k].record.(archived := r[k].record.archived)
    ensures id !in Ids(s) ==> r == s
  {
    assert forall k :: 0 <= k < |s| ==> s[k].id in Ids(s);
    seq(|s|, k requires 0 <= k < |s| => if s[k].id == id then Entry(id, s[k].record.(archived := true)) else s[k])
  }

  lemma ArchivePreservesIds(s: Store, id: Id)
    ensures Ids(Archive(s, id)) == Ids(s)
    ensures Valid(s) ==> Valid(Archive(s, id))
  {
    SameIds(s, Archive(s, id));
  }

  /**
   * Lookup after archiving: the archived id now reports `archived = true` with
   * every other field unchanged, and every other id reads as before.
   */
  lemma ArchiveLookup(s: Store, id: Id)
    requires Valid(s)
    ensures Get(Archive(s, id), id) == (match Get(s, id)
                                         case None => None
                                         case Some(g) => Some(g.(archived := true)))
    ensures forall other :: other != id ==> Get(Archive(s, id), other) == Get(s, other)
  {
    var r := Archive(s, id);
    ArchivePreservesIds(s, id);
    if id in Ids(s) {
      var k :| 0 <= k < |s| && s[k].id == id;
      GetAt(s, k);
      GetAt(r, k);
    }
    forall other | other != id
      ensures Get(r, other) == Get(s, other)
    {
      if other in Ids(s) {
        var k :| 0 <= k < |s| && s[k].id == other;
        GetAt(s, k);
        GetAt(r, k);
      }
    }
  }

  /** Archiving twice is archiving once. */
  lemma ArchiveIdempotent(s: Store, id: Id)
    ensures Archive(Archive(s, id), id) == Archive(s, id)
  {
  }

  /** The record is present and archived. */
  predicate IsArchived(s: Store, id: Id) {
    Get(s, id).Some? && Get(s, id).value.archived
  }

  /** Archiving a valid store takes exactly that id out of the active listing. */
  lemma ArchiveLeavesActive(s: Store, id: Id)
    requires Valid(s)
    ensures forall e :: e in Active(Archive(s, id)) <==> e in Active(s) && e.id != id
  {
    var r := Archive(s, id);
    forall e
      ensures e in Active(r) <==> e in Active(s) && e.id != id
    {
      if e in Active(r) {
        var k :| 0 <= k < |r| && r[k] == e;
        assert s[k] == e;
      }
      if e in Active(s) && e.id != id {
        var k :| 0 <= k < |s| && s[k] == e;
        assert r[k] == e;
      }
    }
  }

  /** Replace the record of an id already present, keeping its place in iteration order. */
  function Overwrite(s: Store, id: Id, g: Giveaway): (r: Store)
    requires Valid(s) && id in Ids(s)
    ensures Valid(r)
    ensures Get(r, id) == Some(g)
    ensures Ids(r) == Ids(s)
    ensures |r| == |s| && forall k :: 0 <= k < |s| ==> r[k].id == s[k].id
    ensures forall other :: other != id ==> Get(r, other) == Get(s, other)
  {
    var r := seq(|s|, k requires 0 <= k < |s| => if s[k].id == id then Entry(id, g) else s[k]);
    var k :| 0 <= k < |s| && s[k].id == id;
    SameIds(s, r);
    GetAt(r, k);
    forall other | other != id
      ensures Get(r, other) == Get(s, other)
    {
      if other in Ids(s) {
        var j :| 0 <= j < |s| && s[j].id == other;
        GetAt(s, j);
        GetAt(r, j);
      }
    }
    r
  }

  /**
   * `GIVEAWAYS[gid] = {...}` as the bot writes it: a dict assignment. On an id
   * already present it replaces that record where it stands; otherwise it
   * appends.
   */
  function AssignAsWritten(s: Store, id: Id, g: Giveaway): (r: Store)
    requires Valid(s)
    ensures Valid(r)
    ensures Get(r, id) == Some(g)
    ensures Ids(r) == Ids(s) + {id}
    ensures forall other :: other != id ==> Get(r, other) == Get(s, other)
    ensures id in Ids(s) ==> |r| == |s| && forall k :: 0 <= k < |s| ==> r[k].id == s[k].id
    ensures id !in Ids(s) ==> r == s + [Entry(id, g)]
  {
    if id in Ids(s) then Overwrite(s, id, g)
    else
      var e := Entry(id, g);
      AppendFresh(s, e);
      GetAppend(s, e, id);
      forall other | other != id
        ensures Get(s + [e], other) == Get(s, other)
      {
        GetAppend(s, e, other);
        assert other in Ids(s) <==> Get(s, other).Some?;
      }
      s + [e]
  }

  /**
   * An id collision on the as-written assignment replaces an archived record by
   * a fresh, non-archived one: the archive flag goes back to false.
   */
  lemma CollisionUnarchives()
    ensures var before := Giveaway(None, "old", [], None, true);
            var s := [Entry("1a2b3c4d", before)];
            && Valid(s)
            && IsArchived(s, "1a2b3c4d")
            && !IsArchived(AssignAsWritten(s, "1a2b3c4d", NewRecord(None, "new", [], None)), "1a2b3c4d")
  {
    var s := [Entry("1a2b3c4d", Giveaway(None, "old", [], None, true))];
    GetAt(s, 0);
  }

  /** The non-archived entries, in insertion order. */
  function Active(s: Store): (r: Store)
    ensures forall e :: e in r <==> e in s && !e.record.archived
    ensures |r| <= |s|
  {
    if s == [] then []
    else
      var rest := Active(s[1..]);
      assert forall e :: e in s <==> e == s[0] || e in s[1..];
      if s[0].record.archived then rest else [s[0]] + rest
  }

  /** The active listing of a concatenation is the concatenation of the listings: order is kept. */
  lemma {:induction false} ActiveAppend(s1: Store, s2: Store)
    ensures Active(s1 + s2) == Active(s1) + Active(s2)
  {
    if s1 == [] {
      assert s1 + s2 == s2;
    } else {
      var s := s1 + s2;
      assert s[0] == s1[0] && s[1..] == s1[1..] + s2;
      ActiveAppend(s1[1..], s2);
      if s1[0].record.archived {
        assert Active(s) == Active(s[1..]);
      } else {
        assert Active(s) == [s1[0]] + Active(s[1..]);
        assert Active(s1) == [s1[0]] + Active(s1[1..]);
      }
    }
  }
}
