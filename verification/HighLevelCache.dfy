/** The operations of the high-level cache, over every run of which no handle leads to a content that is gone. */
module HighLevelCache {
  import opened ContentCache

  datatype Outcome = Ok | NeedData | NoMemory

  /** Whether a cached content serves a retrieval. */
  predicate Suits(c: Content, r: Retrieval) {
    c.status != Error && c.shareable && c.Fits(r.quirks) && c.source == r.source
  }

  /** content_count_users */
  method CountUsers(c: Content) returns (n: nat)
    ensures n == |c.users|
  {
    var counter := 1;   // for the sentinel
    var i := 0;
    while i < |c.users|
      invariant 0 <= i <= |c.users| && counter == i + 1
    {
      counter, i := counter + 1, i + 1;
    }
    n := counter - 1;
  }

  /** The search of content_remove_user; every caller passes a user of the content. */
  method FindUser(users: seq<Addr>, h: Addr) returns (i: nat)
    requires h in users
    ensures i < |users| && users[i] == h && forall j :: 0 <= j < i ==> users[j] != h
  {
    i := 0;
    while users[i] != h
      invariant 0 <= i < |users| && forall j :: 0 <= j < i ==> users[j] != h
      decreases |users| - i
    {
      i := i + 1;
    }
  }

  /** One user of an entry's content left, and nothing else changed. */
  ghost predicate LeftBy(entries: Entries, before: Contents, after: Contents, e: Addr, h: Addr) {
    && e in entries && entries[e].content in before
    && exists i :: 0 <= i < |before[entries[e].content].users| && before[entries[e].content].users[i] == h
                   && after == Left(entries, before, e, i)
  }

  /** The retrieval of a handle ended, if there was one; the others keep their order. */
  ghost predicate Ended(before: seq<Retrieval>, after: seq<Retrieval>, h: Addr) {
    if exists i :: 0 <= i < |before| && before[i].handle == h
    then exists i :: 0 <= i < |before| && before[i].handle == h && after == before[..i] + before[i + 1..]
    else after == before
  }

  lemma HasContent(entries: Entries, contents: Contents, handles: Handles, e: Addr)
    requires GraphOk(entries, contents, handles) && e in entries
    ensures entries[e].content in contents
  {
  }

  lemma EntryNotNull(first: Addr, entries: Entries, list: seq<Addr>)
    requires ListOk(first, entries, list)
    ensures forall i :: 0 <= i < |list| ==> list[i] != NULL
    ensures forall e <- list :: e in entries
  {
    forall i | 0 <= i < |list| ensures list[i] != NULL && list[i] in entries { assert LinkOk(entries, list, i); }
  }

  lemma NoNullEntry(entries: Entries, contents: Contents, handles: Handles)
    requires GraphOk(entries, contents, handles)
    ensures NULL !in entries && ContentsOk(entries, contents)
  {
  }

  /** The entries that are left have the contents they had. */
  ghost predicate SameParts(es: Entries, cs: Contents, entries: Entries, contents: Contents) {
    forall e <- entries :: && e in es && entries[e].content == es[e].content
                           && es[e].content in cs && es[e].content in contents && contents[es[e].content] == cs[es[e].content]
  }

  /** What cleaning leaves, in the order it was. */
  ghost predicate Cleaned(es: Entries, cs: Contents, all: seq<Addr>, entries: Entries, contents: Contents, list: seq<Addr>, force: bool) {
    ContentsOk(es, cs) && list == Keep(all, Gone(es, cs, force)) && SameParts(es, cs, entries, contents)
  }

  lemma HeadOf(first: Addr, entries: Entries, list: seq<Addr>)
    requires ListOk(first, entries, list)
    ensures first == At(list, 0)
  {
  }

  lemma NextOf(first: Addr, entries: Entries, list: seq<Addr>, at: nat)
    requires ListOk(first, entries, list) && at < |list|
    ensures list[at] in entries && entries[list[at]].next == At(list, at + 1)
  {
    assert LinkOk(entries, list, at);
  }

  lemma KeepNone(all: seq<Addr>, gone: set<Addr>)
    ensures Keep(all[..0], gone) == [] && all[0..] == all
  {
  }

  /** An entry goes now exactly when it would have gone at the start. */
  lemma GoneNow(es: Entries, cs: Contents, entries: Entries, contents: Contents, e: Addr, force: bool)
    requires ContentsOk(es, cs) && SameParts(es, cs, entries, contents) && e in entries
    ensures entries[e].content in contents
    ensures var c := contents[entries[e].content];
            e in Gone(es, cs, force) <==> c.users == [] && (c.status != Loading || force)
  {
  }

  lemma SameAtFirst(entries: Entries, contents: Contents)
    requires ContentsOk(entries, contents)
    ensures SameParts(entries, contents, entries, contents)
  {
  }

  lemma SameAfter(es: Entries, cs: Contents, entries: Entries, contents: Contents, e: Addr)
    requires ContentsOk(es, cs) && SameParts(es, cs, entries, contents) && e in entries
    ensures SameParts(es, cs, Unlinked(entries, e), contents - {entries[e].content})
  {
    UnlinkedIs(entries, e);
  }

  lemma CleanedShrinks(es: Entries, cs: Contents, all: seq<Addr>, entries: Entries, contents: Contents, list: seq<Addr>, force: bool)
    requires Cleaned(es, cs, all, entries, contents, list, force)
    ensures |list| <= |all|
  {
    KeepLength(all, Gone(es, cs, force));
  }

  /** A later cleaning, if not a milder one, leaves what it would have left at once. */
  lemma CleanedTwice(e0: Entries, c0: Contents, l0: seq<Addr>, e1: Entries, c1: Contents, l1: seq<Addr>,
                     e2: Entries, c2: Contents, l2: seq<Addr>, first: bool, then_: bool)
    requires Cleaned(e0, c0, l0, e1, c1, l1, first) && Cleaned(e1, c1, l1, e2, c2, l2, then_) && (first ==> then_)
    requires (forall e <- l0 :: e in e0) && (forall e <- l1 :: e in e1)
    ensures Cleaned(e0, c0, l0, e2, c2, l2, then_)
  {
    var a, b := Gone(e0, c0, first), Gone(e1, c1, then_);
    KeepTwice(l0, a, b);
    KeepMembers(l0, a);
    forall e <- l0 ensures e in a + b <==> e in Gone(e0, c0, then_) {
      if e !in a { assert e in l1; }
    }
    KeepSame(l0, a + b, Gone(e0, c0, then_));
  }

  lemma AllUsed(first: Addr, es: Entries, cs: Contents, all: seq<Addr>, entries: Entries, contents: Contents, handles: Handles, list: seq<Addr>)
    requires Cleaned(es, cs, all, entries, contents, list, true) && ListOk(first, entries, list) && GraphOk(entries, contents, handles)
    ensures forall e <- list :: e in entries && contents[entries[e].content].users != []
  {
    KeepMembers(all, Gone(es, cs, true));
    forall e <- list ensures e in entries && contents[entries[e].content].users != [] {
      var i :| 0 <= i < |list| && list[i] == e;
      assert LinkOk(entries, list, i);
    }
  }

  class Cache {
    var contentList: Addr
    var entries: Entries
    var contents: Contents
    var handles: Handles
    var ring: seq<Retrieval>
    ghost var list: seq<Addr>

    constructor ()
      ensures Valid() && list == [] && handles == map[] && ring == []
    {
      contentList, list, ring := NULL, [], [];
      entries, contents, handles := map[], map[], map[];
    }

    ghost predicate Valid()
      reads this
    {
      && ListOk(contentList, entries, list) && GraphOk(entries, contents, handles)
      && RingOk(ring, handles) && NULL !in handles
    }

    /** hlcache_handle_retrieve, once the low-level fetch is started. */
    method Retrieve(h: Addr, source: nat, quirks: bool)
      requires Valid() && h != NULL && h !in handles
      modifies this`handles, this`ring
      ensures Valid() && handles == old(handles)[h := NULL] && ring == old(ring) + [Retrieval(h, source, quirks)]
    {
      hide GraphOk, ListOk;
      NewHandleOk(entries, contents, handles, h);
      handles := handles[h := NULL];
      ring := ring + [Retrieval(h, source, quirks)];
    }

    /** The search of hlcache_find_content: the first suitable entry in list order. */
    method Search(r: Retrieval) returns (entry: Addr, ghost i: nat)
      requires Valid()
      ensures i <= |list| && entry == At(list, i) && (i < |list| ==> entry in entries)
      ensures forall j :: 0 <= j < i ==> list[j] in entries && !Suits(contents[entries[list[j]].content], r)
      ensures i < |list| ==> Suits(contents[entries[entry].content], r)
      ensures i < |list| ==> var c := contents[entries[entry].content];
                             && c.source == r.source && c.shareable && c.status != Error
                             && (if r.quirks then c.fitsQuirks else c.fitsPlain)
    {
      hide HandleOk, EntryOk;
      entry, i := contentList, 0;
      if |list| > 0 { assert LinkOk(entries, list, 0); }
      while entry != NULL
        invariant 0 <= i <= |list| && entry == At(list, i) && (i < |list| ==> entry != NULL)
        invariant forall j :: 0 <= j < i ==> list[j] in entries && !Suits(contents[entries[list[j]].content], r)
        decreases |list| - i
      {
        assert LinkOk(entries, list, i);
        if Suits(contents[entries[entry].content], r) { return; }
        entry := entries[entry].next;
        i := i + 1;
        if i < |list| { assert LinkOk(entries, list, i); }
      }
    }

    /** An entry for a content that is not in the cache yet, put first. */
    method AddEntry(e: Addr, c: Addr, content: Content)
      requires Valid() && e != NULL && e !in entries && c !in contents && content.users == []
      modifies this`contentList, this`entries, this`contents, this`list
      ensures Valid() && entries == Pushed(old(contentList), old(entries), e, c)
      ensures contents == old(contents)[c := content] && list == [e] + old(list) && contentList == e
      ensures e in entries && entries[e].content == c
      ensures forall x <- old(entries) :: x in entries && entries[x].content == old(entries)[x].content
    {
      hide GraphOk;
      PushList(contentList, entries, list, e, c);
      ghost var more := Pushed(contentList, entries, e, c);
      NewEntryOk(entries, more, contents, handles, e, c, content);
      if |list| > 0 { assert LinkOk(entries, list, 0); }
      var first := contentList;
      if first != NULL {
        entries := entries[first := entries[first].(prev := e)];
      }
      entries := entries[e := Entry(c, first, NULL)];
      contents := contents[c := content];
      contentList, list := e, [e] + list;
    }

    /**
     * hlcache_find_content: the handle becomes a user of the first suitable content, or of a new one if the
     * content factory makes one.
     */
    method FindContent(r: Retrieval, e: Addr, c: Addr, created: bool, made: Content) returns (outcome: Outcome, ghost i: nat)
      requires Valid() && r in ring && e != NULL && e !in entries && c !in contents && made.users == []
      modifies this
      ensures ListOk(contentList, entries, list) && GraphOk(entries, contents, handles) && ring == old(ring)
      ensures i <= |old(list)| && (outcome == Ok <==> i < |old(list)|)
      ensures outcome == NoMemory <==> i == |old(list)| && !created
      ensures outcome == NoMemory ==> handles == old(handles) && list == old(list) && entries == old(entries) && contents == old(contents)
      ensures forall j :: 0 <= j < i ==> old(list)[j] in old(entries) && !Suits(old(contents)[old(entries)[old(list)[j]].content], r)
      ensures outcome == Ok ==>
                && old(list)[i] in old(entries) && Suits(old(contents)[old(entries)[old(list)[i]].content], r)
                && handles == old(handles)[r.handle := old(list)[i]] && list == old(list) && entries == old(entries)
                && contents == Joined(entries, old(contents), old(list)[i], r.handle)
                && old(contents)[old(entries)[old(list)[i]].content].source == r.source
      ensures outcome == NeedData ==>
                && handles == old(handles)[r.handle := e] && list == [e] + old(list)
                && contents == old(contents)[c := made.(users := [r.handle])] && e in entries && entries[e].content == c
    {
      hide ListOk, GraphOk;
      EntryNotNull(contentList, entries, list);
      var entry;
      entry, i := Search(r);
      if entry == NULL {
        if !created { return NoMemory, i; }
        AddEntry(e, c, made);
        entry := e;
        outcome := NeedData;
      } else {
        outcome := Ok;
      }
      HasContent(entries, contents, handles, entry);
      JoinedOk(entries, contents, handles, entry, r.handle);
      assert outcome == NeedData ==> [r.handle] + contents[c].users == [r.handle];
      contents := Joined(entries, contents, entry, r.handle);
      handles := handles[r.handle := entry];
    }

    /** hlcache_migrate_ctx: the retrieval ends, with a content if its type is acceptable and one was found or made. */
    method Migrate(k: nat, acceptable: bool, e: Addr, c: Addr, created: bool, made: Content) returns (outcome: Outcome)
      requires Valid() && k < |ring| && e != NULL && e !in entries && c !in contents && made.users == []
      modifies this
      ensures Valid() && ring == old(ring[..k] + ring[k + 1..])
      ensures handles.Keys == old(handles).Keys && (acceptable && outcome != NoMemory <==> handles[old(ring)[k].handle] != NULL)
      ensures acceptable && created ==> outcome != NoMemory
      ensures forall h <- handles :: h != old(ring)[k].handle ==> handles[h] == old(handles)[h]
      ensures !acceptable || outcome == NoMemory ==> handles == old(handles) && list == old(list) && contents == old(contents)
    {
      hide ListOk, GraphOk, Joined;
      outcome := Ok;
      if acceptable {
        ghost var i;
        outcome, i := FindContent(ring[k], e, c, created, made);
        EntryNotNull(contentList, entries, list);
      }
      ring := ring[..k] + ring[k + 1..];
    }

    /** hlcache_handle_release: the handle leaves the content's users, or its retrieval ends. */
    method Release(h: Addr)
      requires Valid() && h in handles
      modifies this`contents, this`handles, this`ring
      ensures Valid() && handles == old(handles) - {h}
      ensures old(handles)[h] == NULL ==> contents == old(contents) && Ended(old(ring), ring, h)
      ensures old(handles)[h] != NULL ==> LeftBy(entries, old(contents), contents, old(handles)[h], h) && ring == old(ring)
    {
      hide ListOk, GraphOk;
      if handles[h] != NULL {
        LeaveContent(h);
      } else {
        EndRetrieval(h);
      }
      FreeHandleOk(entries, contents, handles, h);
      handles := handles - {h};
    }

    method LeaveContent(h: Addr)
      requires Valid() && h in handles && handles[h] != NULL
      modifies this`contents, this`handles
      ensures Valid() && handles == old(handles)[h := NULL] && LeftBy(entries, old(contents), contents, old(handles)[h], h)
      ensures forall r <- ring :: r.handle != h
    {
      hide ListOk, GraphOk;
      HandleReaches(entries, contents, handles, h);
      var i := FindUser(contents[entries[handles[h]].content].users, h);
      LeftOk(entries, contents, handles, h, i);
      contents := Left(entries, contents, handles[h], i);
      handles := handles[h := NULL];
    }

    /** The part of release and abort for a handle that has no entry. */
    method EndRetrieval(h: Addr)
      requires Valid() && h in handles && handles[h] == NULL
      modifies this`ring
      ensures Valid() && (forall r <- ring :: r.handle != h) && Ended(old(ring), ring, h)
    {
      hide ListOk, GraphOk;
      var i := 0;
      while i < |ring|
        invariant 0 <= i <= |ring| && ring == old(ring) && forall j :: 0 <= j < i ==> ring[j].handle != h
      {
        if ring[i].handle == h {
          ring := ring[..i] + ring[i + 1..];
          return;
        }
        i := i + 1;
      }
    }

    /** hlcache_handle_abort: a handle that shares its content first gets a copy of its own. */
    method Abort(h: Addr, cloned: bool, e: Addr, c: Addr) returns (outcome: Outcome)
      requires Valid() && h in handles && e != NULL && e !in entries && c !in contents
      modifies this
      ensures Valid() && handles.Keys == old(handles).Keys
      ensures forall g <- handles :: g != h ==> handles[g] == old(handles)[g]
      ensures old(handles)[h] == NULL ==>
                handles == old(handles) && contents == old(contents) && list == old(list) && Ended(old(ring), ring, h)
      ensures old(handles)[h] != NULL ==> ring == old(ring)
      ensures old(handles)[h] != NULL ==>
                var was := old(handles)[h];
                && was in old(entries) && old(entries)[was].content in old(contents)
                && var content := old(contents)[old(entries)[was].content];
                && var users := content.users;
                && (|users| <= 1 || !cloned ==> handles == old(handles) && contents == old(contents) && list == old(list))
                && (|users| > 1 && cloned ==>
                      && handles[h] == e && list == [e] + old(list) && e in entries && entries[e].content == c
                      && c in contents && contents[c] == content.(users := [h])
                      && contents.Keys == old(contents).Keys + {c}
                      && (forall x <- old(contents) :: x != old(entries)[was].content ==> contents[x] == old(contents)[x])
                      && exists i :: 0 <= i < |users| && users[i] == h
                                     && contents[old(entries)[was].content] == content.(users := Without(users, i)))
                && (outcome == NoMemory <==> |users| > 1 && !cloned)
    {
      hide ListOk, GraphOk, Pushed;
      outcome := Ok;
      var entry := handles[h];
      if entry == NULL {
        EndRetrieval(h);
        return;
      }
      HandleReaches(entries, contents, handles, h);
      var content := contents[entries[entry].content];
      var users := CountUsers(content);
      if users > 1 {
        if !cloned { return NoMemory; }
        AddEntry(e, c, content.(users := []));
        LeaveContent(h);
        JoinedOk(entries, contents, handles, e, h);
        contents := Joined(entries, contents, e, h);
        handles := handles[h := e];
        HandleReaches(entries, contents, handles, h);
      }
    }

    /** One step of hlcache_clean: an entry without users goes, and its content with it. */
    method RemoveEntry(e: Addr, ghost i: nat)
      requires Valid() && e in entries && i < |list| && list[i] == e && contents[entries[e].content].users == []
      modifies this`contentList, this`entries, this`contents, this`list
      ensures Valid() && list == Without(old(list), i) && entries == Unlinked(old(entries), e)
      ensures contents == old(contents) - {old(entries)[e].content}
    {
      hide GraphOk, RingOk, ContentsOk, ListOk, Without;
      NoNullEntry(entries, contents, handles);
      UnlinkList(contentList, entries, list, i);
      UnlinkedIs(entries, e);
      DropEntryOk(entries, Unlinked(entries, e), contents, handles, e);
      Neighbours(contentList, entries, list, i);
      var entry := entries[e];
      if entry.prev == NULL {
        contentList := entry.next;
      } else {
        entries := entries[entry.prev := entries[entry.prev].(next := entry.next)];
      }
      if entry.next != NULL {
        entries := entries[entry.next := entries[entry.next].(prev := entry.prev)];
      }
      entries := entries - {e};
      contents := contents - {entry.content};
      list := Without(list, i);
    }

    /** hlcache_clean: exactly the entries without users go, but for those still loading unless forced. */
    method Clean(force: bool)
      requires Valid()
      modifies this`contentList, this`entries, this`contents, this`list
      ensures Valid() && Cleaned(old(entries), old(contents), old(list), entries, contents, list, force)
    {
      hide ListOk, GraphOk, RingOk, Keep, Unlinked, Goes, Gone, SameParts, ContentsOk, Without;
      ghost var es, cs, all := entries, contents, list;
      NoNullEntry(entries, contents, handles);
      SameAtFirst(entries, contents);
      ghost var gone := Gone(es, cs, force);
      var entry := contentList;
      ghost var i := 0;
      EntryNotNull(contentList, entries, list);
      HeadOf(contentList, entries, list);
      assert Keep(all[..0], gone) + all[0..] == all by { KeepNone(all, gone); }
      while entry != NULL
        invariant Valid() && 0 <= i <= |all| && entry == At(all, i)
        invariant list == Keep(all[..i], gone) + all[i..]
        invariant SameParts(es, cs, entries, contents)
        decreases |all| - i
      {
        KeepStep(all, i, gone);
        ghost var at := |Keep(all[..i], gone)|;
        NextOf(contentList, entries, list, at);
        var next := entries[entry].next;
        GoneNow(es, cs, entries, contents, entry, force);
        var content := contents[entries[entry].content];
        var users := CountUsers(content);
        if users == 0 && (content.status != Loading || force) {
          SameAfter(es, cs, entries, contents, entry);
          RemoveEntry(entry, at);
        }
        i := i + 1;
        entry := next;
      }
      assert all[..i] == all && all[i..] == [];
    }

    /** The counting loop of hlcache_finalise. */
    method CountContents() returns (n: nat)
      requires Valid()
      ensures n == |list|
    {
      hide GraphOk;
      n := 0;
      var entry := contentList;
      if |list| > 0 { assert LinkOk(entries, list, 0); }
      while entry != NULL
        invariant 0 <= n <= |list| && entry == At(list, n) && (n < |list| ==> entry != NULL)
        decreases |list| - n
      {
        assert LinkOk(entries, list, n);
        entry := entries[entry].next;
        n := n + 1;
        if n < |list| { assert LinkOk(entries, list, n); }
      }
    }

    /** One drain loop of hlcache_finalise: cleaning until a pass removes nothing comes to one cleaning. */
    method Drain(force: bool)
      requires Valid()
      modifies this`contentList, this`entries, this`contents, this`list
      ensures Valid() && Cleaned(old(entries), old(contents), old(list), entries, contents, list, force)
    {
      hide ListOk, GraphOk, Cleaned;
      EntryNotNull(contentList, entries, list);
      var before := CountContents();
      Clean(force);
      CleanedShrinks(old(entries), old(contents), old(list), entries, contents, list, force);
      var left := CountContents();
      while left > 0 && left != before
        invariant Valid() && left == |list|
        invariant Cleaned(old(entries), old(contents), old(list), entries, contents, list, force)
        invariant left <= before
        decreases left + before
      {
        before := left;
        ghost var es, cs, all := entries, contents, list;
        EntryNotNull(contentList, entries, list);
        Clean(force);
        CleanedShrinks(es, cs, all, entries, contents, list, force);
        CleanedTwice(old(entries), old(contents), old(list), es, cs, all, entries, contents, list, force, force);
        left := CountContents();
      }
    }

    /** The drain loops of hlcache_finalise: what is left at the end is exactly what still has users. */
    method Finalise()
      requires Valid()
      modifies this`contentList, this`entries, this`contents, this`list
      ensures Valid() && Cleaned(old(entries), old(contents), old(list), entries, contents, list, true)
      ensures forall e <- list :: e in entries && contents[entries[e].content].users != []
    {
      hide ListOk, GraphOk, Cleaned;
      EntryNotNull(contentList, entries, list);
      Drain(false);
      EntryNotNull(contentList, entries, list);
      ghost var es, cs, all := entries, contents, list;
      Drain(true);
      CleanedTwice(old(entries), old(contents), old(list), es, cs, all, entries, contents, list, false, true);
      assert ListOk(contentList, entries, list);
      AllUsed(contentList, old(entries), old(contents), old(list), entries, contents, handles, list);
    }
  }
}
