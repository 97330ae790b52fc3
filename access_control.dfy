/**
 * The mutable, fluent builder of a (deprecated, API version 1) access
 * control list. Entries are keyed by their authorization subject: setting an
 * entry replaces the one of the same subject, removing goes by subject, and
 * building snapshots the entries into an immutable list.
 */
module AccessControl {
  import opened Wrappers

  /** The subject a permission is granted to, identified by its id. */
  datatype AuthorizationSubject = AuthorizationSubject(id: string)

  /** The permissions of the version 1 authorization model. */
  datatype Permission = Read | Write | Administrate

  /** One entry of an access control list: a subject and what it is granted. */
  datatype AclEntry = AclEntry(subject: AuthorizationSubject, permissions: set<Permission>)

  /** A builder's entries, indexed by subject. */
  type Entries = map<AuthorizationSubject, AclEntry>

  /** Every entry is stored under its own subject, so there is at most one entry per subject. */
  predicate Keyed(m: Entries) {
    forall s :: s in m ==> m[s].subject == s
  }

  /** The immutable list `build` returns. */
  datatype AccessControlList = AccessControlList(entries: Entries)

  /** The subjects occurring in a sequence of entries. */
  function SubjectsOf(es: seq<AclEntry>): (r: set<AuthorizationSubject>)
    ensures forall i :: 0 <= i < |es| ==> es[i].subject in r
    ensures forall s :: s in r ==> exists i :: 0 <= i < |es| && es[i].subject == s
  {
    set i | 0 <= i < |es| :: es[i].subject
  }

  /** The entries after setting `e`: its subject now maps to `e`, every other subject is as before. */
  function Put(m: Entries, e: AclEntry): (r: Entries)
    ensures e.subject in r && r[e.subject] == e
    ensures r.Keys == m.Keys + {e.subject}
    ensures forall s :: s in m && s != e.subject ==> r[s] == m[s]
    ensures Keyed(m) ==> Keyed(r)
  {
    m[e.subject := e]
  }

  /** The entries after setting each of `es` in turn, first to last. */
  function PutAll(m: Entries, es: seq<AclEntry>): (r: Entries)
    decreases |es|
    ensures r.Keys == m.Keys + SubjectsOf(es)
    ensures forall s :: s in m && s !in SubjectsOf(es) ==> r[s] == m[s]
    ensures Keyed(m) ==> Keyed(r)
  {
    if es == [] then m
    else
      assert SubjectsOf(es) == {es[0].subject} + SubjectsOf(es[1..]);
      PutAll(Put(m, es[0]), es[1..])
  }

  /** The entries after removing every subject in `subjects`; all other entries are untouched. */
  function Drop(m: Entries, subjects: set<AuthorizationSubject>): (r: Entries)
    ensures r.Keys == m.Keys - subjects
    ensures forall s :: s in r ==> r[s] == m[s]
    ensures Keyed(m) ==> Keyed(r)
  {
    m - subjects
  }

  /** Setting one more entry after a run of entries is the run extended by that entry. */
  lemma {:induction false} PutAllSnoc(m: Entries, es: seq<AclEntry>, e: AclEntry)
    decreases |es|
    ensures PutAll(m, es + [e]) == Put(PutAll(m, es), e)
  {
    if es != [] {
      assert (es + [e])[1..] == es[1..] + [e];
      PutAllSnoc(Put(m, es[0]), es[1..], e);
    }
  }

  /** Setting the prefix of `es` one entry longer sets one more entry. */
  lemma PutAllPrefix(m: Entries, es: seq<AclEntry>, i: nat)
    requires i < |es|
    ensures PutAll(m, es[..i + 1]) == Put(PutAll(m, es[..i]), es[i])
  {
    assert es[..i + 1] == es[..i] + [es[i]];
    PutAllSnoc(m, es[..i], es[i]);
  }

  /** For a subject set several times, the last entry with that subject wins. */
  lemma {:induction false} PutAllLastWins(m: Entries, es: seq<AclEntry>, i: nat)
    requires i < |es|
    requires forall j :: i < j < |es| ==> es[j].subject != es[i].subject
    decreases |es|
    ensures es[i].subject in PutAll(m, es) && PutAll(m, es)[es[i].subject] == es[i]
  {
    if i == 0 {
      assert es[0].subject !in SubjectsOf(es[1..]);
    } else {
      PutAllLastWins(Put(m, es[0]), es[1..], i - 1);
    }
  }

  /** Every subject occurring in `es` ends up mapped to one of the entries of `es`, carrying that subject. */
  lemma {:induction false} PutAllTakesFromEntries(m: Entries, es: seq<AclEntry>, s: AuthorizationSubject)
    requires s in SubjectsOf(es)
    decreases |es|
    ensures s in PutAll(m, es)
    ensures PutAll(m, es)[s] in es && PutAll(m, es)[s].subject == s
  {
    if s in SubjectsOf(es[1..]) {
      PutAllTakesFromEntries(Put(m, es[0]), es[1..], s);
      assert PutAll(m, es)[s] in es[1..];
    } else {
      assert s == es[0].subject;
    }
  }

  /** A prefix one longer adds exactly the subject of the entry it adds. */
  lemma SubjectsOfSnoc(es: seq<AclEntry>, i: nat)
    requires i < |es|
    ensures SubjectsOf(es[..i + 1]) == SubjectsOf(es[..i]) + {es[i].subject}
  {
    assert es[..i + 1] == es[..i] + [es[i]];
  }

  /** A mutable builder for an access control list; not thread-safe. */
  class AccessControlListBuilder {
    var entries: Entries

    ghost predicate Valid()
      reads this
    {
      Keyed(entries)
    }

    /** A builder without entries. */
    constructor ()
      ensures Valid() && entries == map[]
    {
      entries := map[];
    }

    /**
     * `set(entry)`: a previous entry with the same subject is replaced. A null
     * entry is rejected and leaves the builder as it was; otherwise the
     * builder itself is returned for chaining.
     */
    method Set(entry: Option<AclEntry>) returns (r: Result<AccessControlListBuilder, NullArgument>)
      requires Valid()
      modifies this
      ensures Valid()
      ensures entry.None? ==> r == Failure(NullArgument("entry")) && entries == old(entries)
      ensures entry.Some? ==> r == Success(this) && entries == Put(old(entries), entry.value)
    {
      if entry.None? {
        return Failure(NullArgument("entry"));
      }
      entries := Put(entries, entry.value);
      r := Success(this);
    }

    /** `setAll(entries)`: each entry is set in iteration order, replacing earlier ones of its subject. */
    method SetAll(es: Option<seq<AclEntry>>) returns (r: Result<AccessControlListBuilder, NullArgument>)
      requires Valid()
      modifies this
      ensures Valid()
      ensures es.None? ==> r == Failure(NullArgument("entries")) && entries == old(entries)
      ensures es.Some? ==> r == Success(this) && entries == PutAll(old(entries), es.value)
    {
      if es.None? {
        return Failure(NullArgument("entries"));
      }
      var xs := es.value;
      ghost var start := entries;
      var i := 0;
      while i < |xs|
        invariant 0 <= i <= |xs|
        invariant Valid()
        invariant entries == PutAll(start, xs[..i])
      {
        PutAllPrefix(start, xs, i);
        var _ := Set(Some(xs[i]));
        i := i + 1;
      }
      assert xs[..i] == xs;
      r := Success(this);
    }

    /** `remove(authorizationSubject)`: the entry of that subject, if any, is removed; nothing else changes. */
    method RemoveSubject(subject: Option<AuthorizationSubject>) returns (r: Result<AccessControlListBuilder, NullArgument>)
      requires Valid()
      modifies this
      ensures Valid()
      ensures subject.None? ==> r == Failure(NullArgument("authorizationSubject")) && entries == old(entries)
      ensures subject.Some? ==> r == Success(this) && entries == Drop(old(entries), {subject.value})
    {
      if subject.None? {
        return Failure(NullArgument("authorizationSubject"));
      }
      entries := Drop(entries, {subject.value});
      r := Success(this);
    }

    /**
     * `remove(entry)`: a convenience for removing the entry's subject; only
     * the subject is compared, so an entry with other permissions is removed too.
     */
    method RemoveEntry(entry: Option<AclEntry>) returns (r: Result<AccessControlListBuilder, NullArgument>)
      requires Valid()
      modifies this
      ensures Valid()
      ensures entry.None? ==> r == Failure(NullArgument("entry")) && entries == old(entries)
      ensures entry.Some? ==> r == Success(this) && entries == Drop(old(entries), {entry.value.subject})
    {
      if entry.None? {
        return Failure(NullArgument("entry"));
      }
      r := RemoveSubject(Some(entry.value.subject));
    }

    /** `removeAll(entries)`: every entry whose subject occurs among the given entries is removed. */
    method RemoveAll(es: Option<seq<AclEntry>>) returns (r: Result<AccessControlListBuilder, NullArgument>)
      requires Valid()
      modifies this
      ensures Valid()
      ensures es.None? ==> r == Failure(NullArgument("entries")) && entries == old(entries)
      ensures es.Some? ==> r == Success(this) && entries == Drop(old(entries), SubjectsOf(es.value))
    {
      if es.None? {
        return Failure(NullArgument("entries"));
      }
      var xs := es.value;
      var i := 0;
      while i < |xs|
        invariant 0 <= i <= |xs|
        invariant Valid()
        invariant entries == Drop(old(entries), SubjectsOf(xs[..i]))
      {
        var _ := RemoveEntry(Some(xs[i]));
        SubjectsOfSnoc(xs, i);
        i := i + 1;
      }
      assert xs[..i] == xs;
      r := Success(this);
    }

    /** `build()`: a new immutable list holding exactly the entries set so far, one per subject. */
    method Build() returns (acl: AccessControlList)
      requires Valid()
      ensures acl.entries == entries
      ensures Keyed(acl.entries)
    {
      acl := AccessControlList(entries);
    }
  }

  /**
   * A list built earlier is a snapshot: changing the builder afterwards
   * leaves it as it was, while a second build sees the change.
   */
  method BuildIsSnapshot(b: AccessControlListBuilder, e: AclEntry)
    returns (before: AccessControlList, after: AccessControlList)
    requires b.Valid()
    modifies b
    ensures b.Valid()
    ensures before.entries == old(b.entries)
    ensures after.entries == Put(old(b.entries), e) == b.entries
  {
    before := b.Build();
    var _ := b.Set(Some(e));
    after := b.Build();
  }
}
