/** The high-level cache: handles, the entries they lead to, and the contents that know their users. */
module ContentCache {

  type Addr = nat
  const NULL: Addr := 0

  datatype Status = Loading | Ready | Done | Error

  datatype Content = Content(users: seq<Addr>, status: Status, source: nat, shareable: bool, fitsQuirks: bool, fitsPlain: bool) {
    /** content_matches_quirks */
    predicate Fits(quirks: bool) {
      if quirks then fitsQuirks else fitsPlain
    }
  }

  datatype Entry = Entry(content: Addr, next: Addr, prev: Addr)

  datatype Retrieval = Retrieval(handle: Addr, source: nat, quirks: bool)

  type Entries = map<Addr, Entry>
  type Contents = map<Addr, Content>
  type Handles = map<Addr, Addr>      // each live handle, and its entry or NULL

  // The list of entries.

  function At(list: seq<Addr>, i: int): Addr {
    if 0 <= i < |list| then list[i] else NULL
  }

  ghost predicate LinkOk(entries: Entries, list: seq<Addr>, i: nat)
    requires i < |list|
  {
    && list[i] != NULL && list[i] in entries
    && entries[list[i]].next == At(list, i + 1) && entries[list[i]].prev == At(list, i - 1)
  }

  ghost predicate Distinct(s: seq<Addr>) {
    forall i, j :: 0 <= i < j < |s| ==> s[i] != s[j]
  }

  /** The entries are doubly linked in this order, from the first. */
  ghost predicate ListOk(first: Addr, entries: Entries, list: seq<Addr>) {
    && first == At(list, 0) && Distinct(list)
    && (forall i :: 0 <= i < |list| ==> LinkOk(entries, list, i))
    && (forall e <- entries :: e in list)
  }

  /** An entry put first. */
  function Pushed(first: Addr, entries: Entries, e: Addr, content: Addr): Entries {
    (if first in entries then entries[first := entries[first].(prev := e)] else entries)[e := Entry(content, first, NULL)]
  }

  lemma PushList(first: Addr, entries: Entries, list: seq<Addr>, e: Addr, content: Addr)
    requires ListOk(first, entries, list) && e !in entries && e != NULL
    ensures ListOk(e, Pushed(first, entries, e, content), [e] + list)
  {
    var n, more := Pushed(first, entries, e, content), [e] + list;
    forall i | 0 <= i < |list| ensures list[i] != e { assert LinkOk(entries, list, i); }
    forall i | 0 <= i < |more| ensures LinkOk(n, more, i) {
      if |list| > 0 { assert LinkOk(entries, list, 0); }
      if i > 0 { assert LinkOk(entries, list, i - 1); }
      if i > 1 { assert list[0] != list[i - 1]; }
    }
    assert more[0] == e;
    forall x <- n ensures x in more {
      if x != e { assert x in list; }
    }
  }

  function Without(s: seq<Addr>, i: nat): seq<Addr>
    requires i < |s|
  {
    s[..i] + s[i + 1..]
  }

  /** An entry taken out. */
  function Unlinked(entries: Entries, e: Addr): Entries
    requires e in entries
  {
    var next, prev := entries[e].next, entries[e].prev;
    var m := if prev in entries then entries[prev := entries[prev].(next := next)] else entries;
    (if next in m then m[next := m[next].(prev := prev)] else m) - {e}
  }

  lemma UnlinkLink(entries: Entries, list: seq<Addr>, i: nat, j: nat)
    requires i < |list| && j < |list| - 1 && Distinct(list) && list[i] in entries && NULL !in entries
    requires forall k :: 0 <= k < |list| ==> LinkOk(entries, list, k)
    ensures LinkOk(Unlinked(entries, list[i]), Without(list, i), j)
  {
    var k := if j < i then j else j + 1;
    assert LinkOk(entries, list, k) && LinkOk(entries, list, i);
    assert list[k] != list[i];
    if i > 0 { assert LinkOk(entries, list, i - 1); }
    if i + 1 < |list| { assert LinkOk(entries, list, i + 1); }
  }

  /** Taking an entry out keeps the others linked, in their order. */
  lemma UnlinkList(first: Addr, entries: Entries, list: seq<Addr>, i: nat)
    requires ListOk(first, entries, list) && i < |list| && list[i] in entries && NULL !in entries
    ensures ListOk(if i == 0 then entries[list[i]].next else first, Unlinked(entries, list[i]), Without(list, i))
    ensures entries[list[i]].prev == NULL <==> i == 0
  {
    hide Unlinked;
    var less := Without(list, i);
    forall j | 0 <= j < |less| ensures LinkOk(Unlinked(entries, list[i]), less, j) { UnlinkLink(entries, list, i, j); }
    assert LinkOk(entries, list, i);
    if i > 0 { assert LinkOk(entries, list, i - 1); }
    UnlinkedIs(entries, list[i]);
    forall x <- Unlinked(entries, list[i]) ensures x in less { StillIn(list, i, x); }
  }

  lemma StillIn(list: seq<Addr>, i: nat, x: Addr)
    requires i < |list| && x in list && x != list[i]
    ensures x in Without(list, i)
  {
    var j :| 0 <= j < |list| && list[j] == x;
    assert Without(list, i)[if j < i then j else j - 1] == x;
  }

  /** What the pointers of an entry lead to. */
  lemma Neighbours(first: Addr, entries: Entries, list: seq<Addr>, i: nat)
    requires ListOk(first, entries, list) && i < |list| && list[i] in entries && NULL !in entries
    ensures entries[list[i]].prev == NULL ==> list[i] == first
    ensures entries[list[i]].prev != NULL ==> entries[list[i]].prev in entries && entries[list[i]].prev != list[i]
    ensures entries[list[i]].next != NULL ==> entries[list[i]].next in entries && entries[list[i]].next != list[i]
  {
    assert LinkOk(entries, list, i);
    if i > 0 { assert LinkOk(entries, list, i - 1); }
    if i + 1 < |list| { assert LinkOk(entries, list, i + 1); }
  }

  lemma UnlinkedIs(entries: Entries, e: Addr)
    requires e in entries
    ensures Unlinked(entries, e).Keys == entries.Keys - {e}
    ensures forall x <- Unlinked(entries, e) :: Unlinked(entries, e)[x].content == entries[x].content
  {
  }

  // Contents and their users.

  /** Each entry has a content of its own, and there are no others. */
  ghost predicate ContentsOk(entries: Entries, contents: Contents) {
    && NULL !in entries
    && (forall e <- entries :: entries[e].content in contents)
    && (forall e, f | e in entries && f in entries && e != f :: entries[e].content != entries[f].content)
    && (forall c <- contents :: exists e <- entries :: entries[e].content == c)
  }

  /** A handle with an entry is registered with the content there. */
  ghost predicate HandleOk(entries: Entries, contents: Contents, handles: Handles, h: Addr)
    requires h in handles
  {
    var e := handles[h];
    e != NULL ==> e in entries && entries[e].content in contents && h in contents[entries[e].content].users
  }

  /** The users of an entry's content are handles of that entry, once each. */
  ghost predicate EntryOk(entries: Entries, contents: Contents, handles: Handles, e: Addr)
    requires e in entries && entries[e].content in contents
  {
    var users := contents[entries[e].content].users;
    Distinct(users) && forall h <- users :: h in handles && handles[h] == e
  }

  /** Every handle with an entry is registered with that entry's content, once, and nowhere else. */
  ghost predicate GraphOk(entries: Entries, contents: Contents, handles: Handles) {
    && ContentsOk(entries, contents)
    && (forall h <- handles :: HandleOk(entries, contents, handles, h))
    && (forall e <- entries :: EntryOk(entries, contents, handles, e))
  }

  /** The retrievals under way are those of handles that have no entry yet, one each. */
  ghost predicate RingOk(ring: seq<Retrieval>, handles: Handles) {
    && (forall r <- ring :: r.handle in handles && handles[r.handle] == NULL)
    && (forall i, j :: 0 <= i < j < |ring| ==> ring[i].handle != ring[j].handle)
  }

  /** No live handle leads to a content that is gone, and the content it leads to knows it. */
  lemma HandleReaches(entries: Entries, contents: Contents, handles: Handles, h: Addr)
    requires GraphOk(entries, contents, handles) && h in handles && handles[h] != NULL
    ensures handles[h] in entries && entries[handles[h]].content in contents
    ensures forall e <- entries :: h in contents[entries[e].content].users <==> e == handles[h]
  {
  }

  // Each change of the graph.

  lemma NewEntryOk(entries: Entries, more: Entries, contents: Contents, handles: Handles, e: Addr, c: Addr, content: Content)
    requires GraphOk(entries, contents, handles) && e !in entries && e != NULL && c !in contents && content.users == []
    requires more.Keys == entries.Keys + {e} && more[e].content == c && forall x <- entries :: more[x].content == entries[x].content
    ensures GraphOk(more, contents[c := content], handles)
  {
    hide HandleOk, EntryOk;
    var after := contents[c := content];
    assert ContentsOk(more, after) by { NewContents(entries, more, contents, e, c, content); }
    forall h <- handles ensures HandleOk(more, after, handles, h) {
      NewHandle(entries, more, contents, handles, e, c, content, h);
    }
    forall x <- more ensures EntryOk(more, after, handles, x) {
      NewUsers(entries, more, contents, handles, e, c, content, x);
    }
  }

  lemma NewContents(entries: Entries, more: Entries, contents: Contents, e: Addr, c: Addr, content: Content)
    requires ContentsOk(entries, contents) && e !in entries && e != NULL && c !in contents
    requires more.Keys == entries.Keys + {e} && more[e].content == c && forall x <- entries :: more[x].content == entries[x].content
    ensures ContentsOk(more, contents[c := content])
  {
  }

  lemma NewHandle(entries: Entries, more: Entries, contents: Contents, handles: Handles, e: Addr, c: Addr, content: Content, h: Addr)
    requires h in handles && HandleOk(entries, contents, handles, h) && c !in contents
    requires more.Keys == entries.Keys + {e} && forall x <- entries :: more[x].content == entries[x].content
    ensures HandleOk(more, contents[c := content], handles, h)
  {
  }

  lemma NewUsers(entries: Entries, more: Entries, contents: Contents, handles: Handles, e: Addr, c: Addr, content: Content, x: Addr)
    requires more.Keys == entries.Keys + {e} && more[e].content == c && forall y <- entries :: more[y].content == entries[y].content
    requires x in more && c !in contents && content.users == [] && e !in entries
    requires x in entries ==> entries[x].content in contents && EntryOk(entries, contents, handles, x)
    ensures EntryOk(more, contents[c := content], handles, x)
  {
  }

  /** content_add_user: the new user comes first. */
  function Joined(entries: Entries, contents: Contents, e: Addr, h: Addr): Contents
    requires e in entries && entries[e].content in contents
  {
    var c := entries[e].content;
    contents[c := contents[c].(users := [h] + contents[c].users)]
  }

  lemma JoinedOk(entries: Entries, contents: Contents, handles: Handles, e: Addr, h: Addr)
    requires GraphOk(entries, contents, handles) && e in entries && h in handles && handles[h] == NULL
    ensures GraphOk(entries, Joined(entries, contents, e, h), handles[h := e])
  {
    hide HandleOk, EntryOk;
    var after, also := Joined(entries, contents, e, h), handles[h := e];
    forall x <- entries { NotUser(entries, contents, handles, x, h); }
    forall g <- also ensures HandleOk(entries, after, also, g) { JoinedHandle(entries, contents, handles, e, h, g); }
    forall x <- entries ensures EntryOk(entries, after, also, x) { JoinedUsers(entries, contents, handles, e, h, x); }
  }

  /** A handle without an entry is nobody's user. */
  lemma NotUser(entries: Entries, contents: Contents, handles: Handles, e: Addr, h: Addr)
    requires e in entries && entries[e].content in contents && EntryOk(entries, contents, handles, e)
    requires h in handles && handles[h] != e
    ensures h !in contents[entries[e].content].users
  {
  }

  lemma JoinedHandle(entries: Entries, contents: Contents, handles: Handles, e: Addr, h: Addr, g: Addr)
    requires e in entries && entries[e].content in contents && (g in handles ==> HandleOk(entries, contents, handles, g))
    requires g in handles || g == h
    ensures HandleOk(entries, Joined(entries, contents, e, h), handles[h := e], g)
  {
  }

  lemma JoinedUsers(entries: Entries, contents: Contents, handles: Handles, e: Addr, h: Addr, x: Addr)
    requires e in entries && x in entries && entries[e].content in contents && entries[x].content in contents
    requires x != e ==> entries[x].content != entries[e].content
    requires EntryOk(entries, contents, handles, x) && h !in contents[entries[x].content].users
    ensures EntryOk(entries, Joined(entries, contents, e, h), handles[h := e], x)
  {
  }

  /** content_remove_user */
  function Left(entries: Entries, contents: Contents, e: Addr, i: nat): Contents
    requires e in entries && entries[e].content in contents && i < |contents[entries[e].content].users|
  {
    var c := entries[e].content;
    contents[c := contents[c].(users := Without(contents[c].users, i))]
  }

  lemma LeftOk(entries: Entries, contents: Contents, handles: Handles, h: Addr, i: nat)
    requires GraphOk(entries, contents, handles) && h in handles && handles[h] != NULL && handles[h] in entries
    requires var users := contents[entries[handles[h]].content].users; i < |users| && users[i] == h
    ensures GraphOk(entries, Left(entries, contents, handles[h], i), handles[h := NULL])
  {
    hide HandleOk, EntryOk;
    var e := handles[h];
    var after, also := Left(entries, contents, e, i), handles[h := NULL];
    assert EntryOk(entries, contents, handles, e);
    forall g <- also ensures HandleOk(entries, after, also, g) { LeftHandle(entries, contents, handles, e, h, i, g); }
    forall x <- entries ensures EntryOk(entries, after, also, x) {
      if x != e { NotUser(entries, contents, handles, x, h); }
      LeftUsers(entries, contents, handles, e, h, i, x);
    }
  }

  lemma LeftHandle(entries: Entries, contents: Contents, handles: Handles, e: Addr, h: Addr, i: nat, g: Addr)
    requires e in entries && entries[e].content in contents && EntryOk(entries, contents, handles, e)
    requires g in handles && HandleOk(entries, contents, handles, g)
    requires i < |contents[entries[e].content].users| && contents[entries[e].content].users[i] == h
    ensures HandleOk(entries, Left(entries, contents, e, i), handles[h := NULL], g)
  {
  }

  lemma LeftUsers(entries: Entries, contents: Contents, handles: Handles, e: Addr, h: Addr, i: nat, x: Addr)
    requires e in entries && x in entries && entries[e].content in contents && entries[x].content in contents
    requires i < |contents[entries[e].content].users| && contents[entries[e].content].users[i] == h
    requires EntryOk(entries, contents, handles, x)
    requires x != e ==> entries[x].content != entries[e].content && h !in contents[entries[x].content].users
    ensures EntryOk(entries, Left(entries, contents, e, i), handles[h := NULL], x)
  {
  }

  lemma DropEntryOk(entries: Entries, less: Entries, contents: Contents, handles: Handles, e: Addr)
    requires GraphOk(entries, contents, handles) && e in entries && contents[entries[e].content].users == []
    requires less.Keys == entries.Keys - {e} && forall x <- less :: less[x].content == entries[x].content
    ensures GraphOk(less, contents - {entries[e].content}, handles)
  {
    hide HandleOk, EntryOk;
    var after := contents - {entries[e].content};
    assert ContentsOk(less, after) by {
      forall d <- after ensures exists x <- less :: less[x].content == d {
        var x :| x in entries && entries[x].content == d;
        assert less[x].content == d;
      }
    }
    forall h <- handles ensures HandleOk(less, after, handles, h) { DropHandle(entries, less, contents, handles, e, h); }
    forall x <- less ensures EntryOk(less, after, handles, x) { DropUsers(entries, less, contents, handles, e, x); }
  }

  lemma DropHandle(entries: Entries, less: Entries, contents: Contents, handles: Handles, e: Addr, h: Addr)
    requires ContentsOk(entries, contents) && e in entries && contents[entries[e].content].users == []
    requires less.Keys == entries.Keys - {e} && forall x <- less :: less[x].content == entries[x].content
    requires h in handles && HandleOk(entries, contents, handles, h)
    ensures HandleOk(less, contents - {entries[e].content}, handles, h)
  {
  }

  lemma DropUsers(entries: Entries, less: Entries, contents: Contents, handles: Handles, e: Addr, x: Addr)
    requires ContentsOk(entries, contents) && e in entries && x in less
    requires less.Keys == entries.Keys - {e} && forall y <- less :: less[y].content == entries[y].content
    requires EntryOk(entries, contents, handles, x)
    ensures EntryOk(less, contents - {entries[e].content}, handles, x)
  {
  }

  /** A handle that has no entry goes. */
  lemma FreeHandleOk(entries: Entries, contents: Contents, handles: Handles, h: Addr)
    requires GraphOk(entries, contents, handles) && h in handles && handles[h] == NULL
    ensures GraphOk(entries, contents, handles - {h})
  {
  }

  lemma NewHandleOk(entries: Entries, contents: Contents, handles: Handles, h: Addr)
    requires GraphOk(entries, contents, handles) && h !in handles
    ensures GraphOk(entries, contents, handles[h := NULL])
  {
  }

  // Cleaning.

  ghost predicate Goes(entries: Entries, contents: Contents, e: Addr, force: bool)
    requires e in entries && entries[e].content in contents
  {
    var c := contents[entries[e].content];
    c.users == [] && (c.status != Loading || force)
  }

  /** The entries that cleaning takes out: those without users, but for ones still loading unless forced. */
  ghost function Gone(entries: Entries, contents: Contents, force: bool): set<Addr>
    requires ContentsOk(entries, contents)
  {
    set e | e in entries && Goes(entries, contents, e, force)
  }

  /** A list without some of its members, in order. */
  ghost function Keep(list: seq<Addr>, gone: set<Addr>): seq<Addr> {
    if list == [] then []
    else Keep(list[..|list| - 1], gone) + if list[|list| - 1] in gone then [] else [list[|list| - 1]]
  }

  lemma KeepStep(list: seq<Addr>, i: nat, gone: set<Addr>)
    requires i < |list|
    ensures var kept := Keep(list[..i], gone);
            && (list[i] in gone ==> Keep(list[..i + 1], gone) + list[i + 1..] == Without(kept + list[i..], |kept|))
            && (list[i] !in gone ==> Keep(list[..i + 1], gone) + list[i + 1..] == kept + list[i..])
            && (kept + list[i..])[|kept|] == list[i]
  {
    assert list[..i + 1][..i] == list[..i];
  }

  lemma {:induction false} KeepTwice(list: seq<Addr>, a: set<Addr>, b: set<Addr>)
    ensures Keep(Keep(list, a), b) == Keep(list, a + b)
  {
    if list == [] {
    } else {
      var n := |list| - 1;
      KeepTwice(list[..n], a, b);
      var kept := Keep(list[..n], a);
      if list[n] !in a { assert (kept + [list[n]])[..|kept|] == kept; } else { assert kept + [] == kept; }
    }
  }

  lemma {:induction false} KeepLength(list: seq<Addr>, gone: set<Addr>)
    ensures |Keep(list, gone)| <= |list|
    ensures |Keep(list, gone)| == |list| ==> Keep(list, gone) == list && forall e <- list :: e !in gone
  {
    if list == [] {
    } else {
      var n := |list| - 1;
      KeepLength(list[..n], gone);
      assert list == list[..n] + [list[n]];
    }
  }

  lemma {:induction false} KeepMembers(list: seq<Addr>, gone: set<Addr>)
    ensures forall e :: e in Keep(list, gone) <==> e in list && e !in gone
  {
    if list == [] {
    } else {
      var n := |list| - 1;
      KeepMembers(list[..n], gone);
      assert list == list[..n] + [list[n]];
    }
  }

  lemma {:induction false} KeepSame(list: seq<Addr>, a: set<Addr>, b: set<Addr>)
    requires forall e <- list :: e in a <==> e in b
    ensures Keep(list, a) == Keep(list, b)
  {
    if list == [] {
    } else {
      KeepSame(list[..|list| - 1], a, b);
    }
  }
}
