/** The rules of a stylesheet: lists of siblings, at the top and under @media rules, numbered as they come. */
module RuleTree {
  import opened SelectorChain

  const NULL: Addr := 0

  datatype Parent = Nowhere | InSheet | InRule(rule: Addr)

  datatype Kind = Selectors(list: seq<Addr>) | Media(first: Addr, last: Addr) | Other

  datatype Rule = Rule(kind: Kind, next: Addr, prev: Addr, parent: Parent, index: nat)

  type Rules = map<Addr, Rule>

  function At(list: seq<Addr>, i: int): Addr {
    if 0 <= i < |list| then list[i] else NULL
  }

  ghost predicate LinkOk(rules: Rules, p: Parent, list: seq<Addr>, i: nat)
    requires i < |list|
  {
    && list[i] != NULL && list[i] in rules && rules[list[i]].parent == p
    && rules[list[i]].next == At(list, i + 1) && rules[list[i]].prev == At(list, i - 1)
  }

  /** Siblings are doubly linked, and their indexes increase. */
  ghost predicate ListOk(rules: Rules, p: Parent, first: Addr, last: Addr, list: seq<Addr>) {
    && first == At(list, 0) && last == At(list, |list| - 1)
    && (forall i :: 0 <= i < |list| ==> LinkOk(rules, p, list, i))
    && (forall i, j :: 0 <= i < j < |list| ==> list[i] in rules && list[j] in rules && rules[list[i]].index < rules[list[j]].index)
  }

  type Kids = map<Addr, seq<Addr>>

  ghost predicate MediaOk(rules: Rules, kids: Kids, m: Addr)
    requires m in rules
  {
    rules[m].kind.Media? ==> m in kids && ListOk(rules, InRule(m), rules[m].kind.first, rules[m].kind.last, kids[m])
  }

  /** A rule is on the list its parent field says, later than its parent. */
  ghost predicate RuleOk(rules: Rules, top: seq<Addr>, kids: Kids, count: nat, r: Addr)
    requires r in rules
  {
    match rules[r].parent
    case Nowhere => true
    case InSheet => r in top && rules[r].index < count
    case InRule(p) =>
      && p in rules && rules[p].kind.Media? && p in kids && r in kids[p]
      && rules[p].index < rules[r].index < count
  }

  ghost predicate TreeOk(rules: Rules, top: seq<Addr>, kids: Kids, count: nat, first: Addr, last: Addr) {
    && NULL !in rules && ListOk(rules, InSheet, first, last, top)
    && (forall m <- rules :: MediaOk(rules, kids, m))
    && (forall r <- rules :: RuleOk(rules, top, kids, count, r))
  }

  /** Parents come before their children. */
  ghost predicate ParentsOk(rules: Rules) {
    forall r <- rules :: rules[r].parent.InRule? ==>
      rules[r].parent.rule in rules && rules[rules[r].parent.rule].index < rules[r].index
  }

  lemma TreeParents(rules: Rules, top: seq<Addr>, kids: Kids, count: nat, first: Addr, last: Addr)
    requires TreeOk(rules, top, kids, count, first, last)
    ensures ParentsOk(rules)
  {
  }

  /** Whether a rule is part of the sheet. */
  ghost predicate Linked(rules: Rules, r: Addr)
    requires ParentsOk(rules) && r in rules
    decreases rules[r].index
  {
    match rules[r].parent
    case Nowhere => false
    case InSheet => true
    case InRule(p) => Linked(rules, p)
  }

  /** Whether a rule is another or somewhere below it. */
  ghost predicate Under(rules: Rules, r: Addr, a: Addr)
    requires ParentsOk(rules) && r in rules
    decreases rules[r].index
  {
    r == a || (rules[r].parent.InRule? && Under(rules, rules[r].parent.rule, a))
  }

  /** What is below an @media rule is below one of its children. */
  lemma {:induction false} UnderChild(rules: Rules, top: seq<Addr>, kids: Kids, count: nat, first: Addr, last: Addr, r: Addr, a: Addr)
    requires TreeOk(rules, top, kids, count, first, last) && ParentsOk(rules) && r in rules && a in kids && a in rules
    requires rules[a].kind.Media?
    ensures Under(rules, r, a) <==> r == a || exists j :: 0 <= j < |kids[a]| && Under(rules, r, kids[a][j])
    decreases rules[r].index
  {
    assert RuleOk(rules, top, kids, count, r);
    assert MediaOk(rules, kids, a);
    if r == a {
    } else if rules[r].parent.InRule? {
      var p := rules[r].parent.rule;
      UnderChild(rules, top, kids, count, first, last, p, a);
      if p == a {
        var j :| 0 <= j < |kids[a]| && kids[a][j] == r;
        assert Under(rules, r, kids[a][j]);
      } else if Under(rules, p, a) {
        var j :| 0 <= j < |kids[a]| && Under(rules, p, kids[a][j]);
        assert Under(rules, r, kids[a][j]);
      } else {
        forall j | 0 <= j < |kids[a]| ensures !Under(rules, r, kids[a][j]) {
          assert LinkOk(rules, InRule(a), kids[a], j);
        }
      }
    } else {
      forall j | 0 <= j < |kids[a]| ensures !Under(rules, r, kids[a][j]) {
        assert LinkOk(rules, InRule(a), kids[a], j);
      }
    }
  }

  /** Nothing is below a rule that is not an @media rule. */
  lemma {:induction false} UnderLeaf(rules: Rules, top: seq<Addr>, kids: Kids, count: nat, first: Addr, last: Addr, r: Addr, a: Addr)
    requires TreeOk(rules, top, kids, count, first, last) && ParentsOk(rules) && r in rules && a in rules && !rules[a].kind.Media?
    ensures Under(rules, r, a) <==> r == a
    decreases rules[r].index
  {
    assert RuleOk(rules, top, kids, count, r);
    if r != a && rules[r].parent.InRule? { UnderLeaf(rules, top, kids, count, first, last, rules[r].parent.rule, a); }
  }

  lemma {:induction false} UnderIndex(rules: Rules, r: Addr, a: Addr)
    requires ParentsOk(rules) && r in rules && a in rules && Under(rules, r, a)
    ensures r == a || rules[a].index < rules[r].index
    decreases rules[r].index
  {
    if r == a {
    } else {
      UnderIndex(rules, rules[r].parent.rule, a);
    }
  }

  /** What is below one sibling is not below another. */
  lemma {:induction false} SiblingsApart(rules: Rules, r: Addr, a: Addr, b: Addr, p: Parent)
    requires ParentsOk(rules) && r in rules && a in rules && b in rules && a != b
    requires rules[a].parent == rules[b].parent == p && p.InRule?
    ensures !(Under(rules, r, a) && Under(rules, r, b))
    decreases rules[r].index
  {
    if r == a {
      if Under(rules, p.rule, b) { UnderIndex(rules, p.rule, b); }
    } else if r == b {
      if Under(rules, p.rule, a) { UnderIndex(rules, p.rule, a); }
    } else if rules[r].parent.InRule? {
      SiblingsApart(rules, rules[r].parent.rule, a, b, p);
    }
  }

  lemma {:induction false} UnderLinked(rules: Rules, r: Addr, a: Addr)
    requires ParentsOk(rules) && r in rules && a in rules && rules[a].parent == InSheet && Under(rules, r, a)
    ensures Linked(rules, r)
    decreases rules[r].index
  {
    if r == a {
    } else {
      UnderLinked(rules, rules[r].parent.rule, a);
    }
  }

  /** Detaching a rule takes out of the sheet what is below it. */
  lemma {:induction false} DetachLinked(rules: Rules, less: Rules, a: Addr, r: Addr)
    requires ParentsOk(rules) && ParentsOk(less) && a in rules && r in rules && less.Keys == rules.Keys
    requires less[a].parent == Nowhere
    requires forall x <- rules :: x != a ==> less[x].parent == rules[x].parent
    ensures Linked(less, r) <==> Linked(rules, r) && !Under(rules, r, a)
    decreases rules[r].index
  {
    if r != a && rules[r].parent.InRule? { DetachLinked(rules, less, a, rules[r].parent.rule); }
  }

  /** Giving a rule without children a linked parent links that rule only. */
  lemma {:induction false} AttachLinked(rules: Rules, more: Rules, a: Addr, r: Addr)
    requires ParentsOk(rules) && ParentsOk(more) && a in rules && r in rules && more.Keys == rules.Keys
    requires rules[a].parent == Nowhere
    requires more[a].parent == InSheet || (more[a].parent.InRule? && more[a].parent.rule in rules && Linked(rules, more[a].parent.rule))
    requires forall x <- rules :: x != a ==> more[x].parent == rules[x].parent && rules[x].parent != InRule(a)
    ensures Linked(more, r) <==> Linked(rules, r) || r == a
    decreases more[r].index
  {
    if more[r].parent.InRule? { AttachLinked(rules, more, a, more[r].parent.rule); }
  }

  // Adding a rule.

  /** The fields a list depends on. */
  predicate SameLinks(a: Rule, b: Rule) {
    a.next == b.next && a.prev == b.prev && a.parent == b.parent && a.index == b.index
  }

  /** A list none of whose rules changed stands. */
  lemma OtherList(rules: Rules, n: Rules, p: Parent, first: Addr, last: Addr, list: seq<Addr>)
    requires ListOk(rules, p, first, last, list)
    requires forall x <- rules :: rules[x].parent == p ==> x in n && SameLinks(rules[x], n[x])
    ensures ListOk(n, p, first, last, list)
  {
    forall i | 0 <= i < |list| ensures LinkOk(n, p, list, i) { assert LinkOk(rules, p, list, i); }
    forall i, j | 0 <= i < j < |list| ensures list[i] in n && list[j] in n && n[list[i]].index < n[list[j]].index {
      assert LinkOk(rules, p, list, i) && LinkOk(rules, p, list, j);
    }
  }

  /** A rule linked in after the last of a list. */
  function Appended(rules: Rules, a: Addr, last: Addr, p: Parent): Rules
    requires a in rules
  {
    (if last in rules then rules[last := rules[last].(next := a)] else rules)[a := rules[a].(prev := last, next := NULL, parent := p)]
  }

  lemma AppendList(rules: Rules, p: Parent, first: Addr, last: Addr, list: seq<Addr>, a: Addr)
    requires ListOk(rules, p, first, last, list) && a in rules && a != NULL && NULL !in rules && rules[a].parent == Nowhere && p != Nowhere
    requires forall x <- rules :: rules[x].parent == p ==> rules[x].index < rules[a].index
    ensures ListOk(Appended(rules, a, last, p), p, if last == NULL then a else first, a, list + [a])
  {
    var n, more := Appended(rules, a, last, p), list + [a];
    var k := |list| - 1;
    if k >= 0 { assert LinkOk(rules, p, list, k); }
    forall i | 0 <= i < |more| ensures LinkOk(n, p, more, i) {
      if i < |list| {
        assert LinkOk(rules, p, list, i);
        assert i < k ==> rules[list[i]].index < rules[list[k]].index;
      }
    }
    forall i, j | 0 <= i < j < |more| ensures more[i] in n && more[j] in n && n[more[i]].index < n[more[j]].index {
      assert LinkOk(rules, p, list, i);
      if j < |list| { assert LinkOk(rules, p, list, j); }
    }
  }

  /** No rule is below one that has no children. */
  lemma NoChildren(rules: Rules, top: seq<Addr>, kids: Kids, count: nat, first: Addr, last: Addr, a: Addr)
    requires TreeOk(rules, top, kids, count, first, last) && a in rules && (rules[a].kind.Media? ==> rules[a].kind.first == NULL)
    ensures forall x <- rules :: rules[x].parent != InRule(a)
  {
  }

  /** A rule that is not in the sheet and has no children may be given any index. */
  lemma IndexTree(rules: Rules, top: seq<Addr>, kids: Kids, count: nat, first: Addr, last: Addr, a: Addr, index: nat)
    requires TreeOk(rules, top, kids, count, first, last) && a in rules && rules[a].parent == Nowhere
    requires forall x <- rules :: rules[x].parent != InRule(a)
    ensures TreeOk(rules[a := rules[a].(index := index)], top, kids, count, first, last)
  {
    hide ListOk;
    var n := rules[a := rules[a].(index := index)];
    OtherList(rules, n, InSheet, first, last, top);
    forall m <- n ensures MediaOk(n, kids, m) {
      assert MediaOk(rules, kids, m);
      if rules[m].kind.Media? { OtherList(rules, n, InRule(m), rules[m].kind.first, rules[m].kind.last, kids[m]); }
    }
    forall r <- n ensures RuleOk(n, top, kids, count, r) { assert RuleOk(rules, top, kids, count, r); }
  }

  /** The rules of a sheet have indexes below its count. */
  lemma BelowCount(rules: Rules, top: seq<Addr>, kids: Kids, count: nat, first: Addr, last: Addr, p: Parent)
    requires TreeOk(rules, top, kids, count, first, last) && p != Nowhere
    ensures forall x <- rules :: rules[x].parent == p ==> rules[x].index < count
  {
  }

  lemma AppendTop(rules: Rules, top: seq<Addr>, kids: Kids, count: nat, first: Addr, last: Addr, a: Addr)
    requires TreeOk(rules, top, kids, count, first, last) && a in rules && rules[a].parent == Nowhere && rules[a].index == count
    ensures TreeOk(Appended(rules, a, last, InSheet), top + [a], kids, count + 1, if last == NULL then a else first, a)
  {
    hide ListOk;
    var n := Appended(rules, a, last, InSheet);
    BelowCount(rules, top, kids, count, first, last, InSheet);
    AppendList(rules, InSheet, first, last, top, a);
    assert last in rules ==> rules[last].parent == InSheet by { LastOf(rules, InSheet, first, last, top); }
    forall m <- n ensures MediaOk(n, kids, m) {
      assert MediaOk(rules, kids, m);
      if rules[m].kind.Media? { OtherList(rules, n, InRule(m), rules[m].kind.first, rules[m].kind.last, kids[m]); }
    }
    forall r <- n ensures RuleOk(n, top + [a], kids, count + 1, r) {
      assert RuleOk(rules, top, kids, count, r);
      if r == a { assert (top + [a])[|top|] == a; }
    }
  }

  lemma LastOf(rules: Rules, p: Parent, first: Addr, last: Addr, list: seq<Addr>)
    requires ListOk(rules, p, first, last, list) && NULL !in rules
    ensures last in rules ==> rules[last].parent == p
    ensures last == NULL <==> list == []
    ensures last != NULL ==> last in rules
  {
    if list != [] { assert LinkOk(rules, p, list, |list| - 1); }
  }

  function AppendedKid(rules: Rules, a: Addr, m: Addr): Rules
    requires a in rules && m in rules && rules[m].kind.Media?
  {
    var last := rules[m].kind.last;
    var n := Appended(rules, a, last, InRule(m));
    n[m := n[m].(kind := Media(if last == NULL then a else rules[m].kind.first, a))]
  }

  lemma AppendedKidIs(rules: Rules, a: Addr, m: Addr)
    requires a in rules && m in rules && rules[m].kind.Media? && a != m && rules[m].kind.last != m && rules[m].kind.last != a
    ensures var n, mid, end := AppendedKid(rules, a, m), Appended(rules, a, rules[m].kind.last, InRule(m)), rules[m].kind.last;
            && n.Keys == mid.Keys == rules.Keys
            && n[m].kind == Media(if end == NULL then a else rules[m].kind.first, a)
            && n[a].parent == InRule(m) && n[a].index == rules[a].index
            && (forall x <- rules :: SameLinks(mid[x], n[x]))
            && (forall x <- rules :: x != m ==> n[x].kind == rules[x].kind)
            && (forall x <- rules :: x != a ==> n[x].parent == rules[x].parent && n[x].index == rules[x].index)
            && (forall x <- rules :: x != a && x != end ==> SameLinks(rules[x], n[x]))
  {
  }

  /** What appending a child changes. */
  ghost predicate OneKidMore(rules: Rules, n: Rules, a: Addr, m: Addr) {
    && n.Keys == rules.Keys && a in rules && m in rules && a != m && rules[m].kind.Media? && n[m].kind.Media?
    && n[a].parent == InRule(m) && n[a].index == rules[a].index
    && (forall x <- rules :: x != m ==> n[x].kind == rules[x].kind)
    && (forall x <- rules :: x != a ==> n[x].parent == rules[x].parent && n[x].index == rules[x].index)
    && (forall x <- rules :: rules[x].parent != Nowhere && rules[x].parent != InRule(m) ==> SameLinks(rules[x], n[x]))
  }

  lemma AppendKidLists(rules: Rules, top: seq<Addr>, kids: Kids, count: nat, first: Addr, last: Addr, a: Addr, m: Addr)
    requires TreeOk(rules, top, kids, count, first, last) && a in rules && rules[a].parent == Nowhere && rules[a].index == count
    requires m in rules && rules[m].kind.Media? && rules[m].parent != Nowhere && m in kids
    ensures var n := AppendedKid(rules, a, m);
            && OneKidMore(rules, n, a, m) && rules[m].index < count
            && ListOk(n, InSheet, first, last, top) && ListOk(n, InRule(m), n[m].kind.first, n[m].kind.last, kids[m] + [a])
  {
    hide ListOk, Appended, AppendedKid;
    var end := rules[m].kind.last;
    var n, mid := AppendedKid(rules, a, m), Appended(rules, a, end, InRule(m));
    assert MediaOk(rules, kids, m) && RuleOk(rules, top, kids, count, m);
    BelowCount(rules, top, kids, count, first, last, InRule(m));
    AppendList(rules, InRule(m), rules[m].kind.first, end, kids[m], a);
    LastOf(rules, InRule(m), rules[m].kind.first, end, kids[m]);
    assert end != m by { if end in rules { assert RuleOk(rules, top, kids, count, end); } }
    AppendedKidIs(rules, a, m);
    OtherList(mid, n, InRule(m), n[m].kind.first, n[m].kind.last, kids[m] + [a]);
    OtherList(rules, n, InSheet, first, last, top);
  }

  lemma AppendKid(rules: Rules, top: seq<Addr>, kids: Kids, count: nat, first: Addr, last: Addr, a: Addr, m: Addr)
    requires TreeOk(rules, top, kids, count, first, last) && a in rules && rules[a].parent == Nowhere && rules[a].index == count
    requires m in rules && rules[m].kind.Media? && rules[m].parent != Nowhere && m in kids
    ensures TreeOk(AppendedKid(rules, a, m), top, kids[m := kids[m] + [a]], count + 1, first, last)
  {
    hide ListOk, AppendedKid, RuleOk, MediaOk, OneKidMore;
    var n, more := AppendedKid(rules, a, m), kids[m := kids[m] + [a]];
    AppendKidLists(rules, top, kids, count, first, last, a, m);
    KidKeys(rules, n, a, m);
    forall x <- n ensures MediaOk(n, more, x) { AppendKidMedia(rules, n, kids, a, m, x); }
    forall r <- n ensures RuleOk(n, top, more, count + 1, r) { AppendKidRule(rules, n, top, kids, count, a, m, r); }
  }

  lemma KidKeys(rules: Rules, n: Rules, a: Addr, m: Addr)
    requires OneKidMore(rules, n, a, m)
    ensures n.Keys == rules.Keys
  {
  }

  lemma AppendKidMedia(rules: Rules, n: Rules, kids: Kids, a: Addr, m: Addr, x: Addr)
    requires OneKidMore(rules, n, a, m) && x in rules && MediaOk(rules, kids, x) && m in kids
    requires ListOk(n, InRule(m), n[m].kind.first, n[m].kind.last, kids[m] + [a])
    ensures MediaOk(n, kids[m := kids[m] + [a]], x)
  {
    hide ListOk, SameLinks;
    if x != m && rules[x].kind.Media? { OtherList(rules, n, InRule(x), rules[x].kind.first, rules[x].kind.last, kids[x]); }
  }

  lemma AppendKidRule(rules: Rules, n: Rules, top: seq<Addr>, kids: Kids, count: nat, a: Addr, m: Addr, r: Addr)
    requires OneKidMore(rules, n, a, m) && r in rules && m in kids && rules[a].index == count && rules[m].index < count
    requires RuleOk(rules, top, kids, count, r)
    ensures RuleOk(n, top, kids[m := kids[m] + [a]], count + 1, r)
  {
    hide SameLinks;
    assert (kids[m] + [a])[|kids[m]|] == a;
  }

  // Removing a top-level rule.

  /** A rule taken out of its list. */
  function Detached(rules: Rules, a: Addr): Rules
    requires a in rules
  {
    var next, prev := rules[a].next, rules[a].prev;
    var n := if next in rules then rules[next := rules[next].(prev := prev)] else rules;
    var m := if prev in n then n[prev := n[prev].(next := next)] else n;
    m[a := rules[a].(parent := Nowhere, prev := NULL, next := NULL)]
  }

  lemma DetachLink(rules: Rules, p: Parent, list: seq<Addr>, i: nat, j: nat)
    requires i < |list| && j < |list| - 1 && list[i] in rules && NULL !in rules
    requires forall k :: 0 <= k < |list| ==> LinkOk(rules, p, list, k)
    requires forall k, l :: 0 <= k < l < |list| ==> list[k] != list[l]
    ensures LinkOk(Detached(rules, list[i]), p, Without(list, i), j)
    ensures var k := if j < i then j else j + 1; Without(list, i)[j] == list[k]
  {
    var k := if j < i then j else j + 1;
    assert LinkOk(rules, p, list, k) && LinkOk(rules, p, list, i);
    assert list[k] != list[i];
    if i > 0 { assert LinkOk(rules, p, list, i - 1); }
    if i + 1 < |list| { assert LinkOk(rules, p, list, i + 1); }
  }

  lemma DetachedIs(rules: Rules, p: Parent, list: seq<Addr>, i: nat)
    requires i < |list| && list[i] in rules && NULL !in rules
    requires forall k :: 0 <= k < |list| ==> LinkOk(rules, p, list, k)
    requires forall k, l :: 0 <= k < l < |list| ==> list[k] != list[l]
    ensures var a, n := list[i], Detached(rules, list[i]);
            && n.Keys == rules.Keys && n[a].parent == Nowhere
            && (forall x <- rules :: n[x].index == rules[x].index && n[x].kind == rules[x].kind)
            && (forall x <- rules :: x != a ==> n[x].parent == rules[x].parent)
            && (forall x <- rules :: rules[x].parent != p ==> SameLinks(rules[x], n[x]))
  {
    assert LinkOk(rules, p, list, i);
    if i > 0 { assert LinkOk(rules, p, list, i - 1); }
    if i + 1 < |list| { assert LinkOk(rules, p, list, i + 1); }
  }

  lemma DetachList(rules: Rules, p: Parent, first: Addr, last: Addr, list: seq<Addr>, i: nat)
    requires ListOk(rules, p, first, last, list) && i < |list| && list[i] in rules && NULL !in rules
    ensures var a := list[i];
            ListOk(Detached(rules, a), p, if rules[a].prev == NULL then rules[a].next else first,
                   if rules[a].next == NULL then rules[a].prev else last, Without(list, i))
  {
    hide Detached;
    forall k, l | 0 <= k < l < |list| ensures list[k] != list[l] {
      assert rules[list[k]].index < rules[list[l]].index;
    }
    DetachedIs(rules, p, list, i);
    var n, less := Detached(rules, list[i]), Without(list, i);
    forall j | 0 <= j < |less| ensures LinkOk(n, p, less, j) { DetachLink(rules, p, list, i, j); }
    forall j, k | 0 <= j < k < |less| ensures less[j] in n && less[k] in n && n[less[j]].index < n[less[k]].index {
      DetachLink(rules, p, list, i, j);
      DetachLink(rules, p, list, i, k);
    }
    assert LinkOk(rules, p, list, i);
    if i > 0 { assert LinkOk(rules, p, list, i - 1); }
    if i + 1 < |list| { assert LinkOk(rules, p, list, i + 1); }
  }

  lemma DetachTop(rules: Rules, top: seq<Addr>, kids: Kids, count: nat, first: Addr, last: Addr, i: nat)
    requires TreeOk(rules, top, kids, count, first, last) && i < |top| && top[i] in rules
    ensures var a := top[i];
            TreeOk(Detached(rules, a), Without(top, i), kids, count,
                   if rules[a].prev == NULL then rules[a].next else first,
                   if rules[a].next == NULL then rules[a].prev else last)
    ensures Detached(rules, top[i]).Keys == rules.Keys && Detached(rules, top[i])[top[i]].parent == Nowhere
    ensures forall x <- rules :: x != top[i] ==> Detached(rules, top[i])[x].parent == rules[x].parent
    ensures forall x <- rules :: Detached(rules, top[i])[x].index == rules[x].index && Detached(rules, top[i])[x].kind == rules[x].kind
  {
    hide Detached;
    var n, less := Detached(rules, top[i]), Without(top, i);
    forall k, l | 0 <= k < l < |top| ensures top[k] != top[l] {
      assert rules[top[k]].index < rules[top[l]].index;
    }
    DetachedIs(rules, InSheet, top, i);
    DetachList(rules, InSheet, first, last, top, i);
    hide ListOk, Without;
    forall m <- n ensures MediaOk(n, kids, m) {
      assert MediaOk(rules, kids, m);
      if rules[m].kind.Media? { OtherList(rules, n, InRule(m), rules[m].kind.first, rules[m].kind.last, kids[m]); }
    }
    hide MediaOk, RuleOk;
    forall r <- n ensures RuleOk(n, less, kids, count, r) { DetachRule(rules, n, top, kids, count, i, r); }
  }

  lemma DetachRule(rules: Rules, n: Rules, top: seq<Addr>, kids: Kids, count: nat, i: nat, r: Addr)
    requires i < |top| && n.Keys == rules.Keys && r in rules && RuleOk(rules, top, kids, count, r)
    requires top[i] in rules && n[top[i]].parent == Nowhere
    requires forall x <- rules :: n[x].index == rules[x].index && n[x].kind == rules[x].kind
    requires forall x <- rules :: x != top[i] ==> n[x].parent == rules[x].parent
    ensures RuleOk(n, Without(top, i), kids, count, r)
  {
    if r != top[i] && r in top {
      var j :| 0 <= j < |top| && top[j] == r;
      assert Without(top, i)[if j < i then j else j - 1] == r;
    }
  }

  // A new rule, outside the sheet.

  lemma CreateTree(rules: Rules, top: seq<Addr>, kids: Kids, count: nat, first: Addr, last: Addr, a: Addr, rule: Rule)
    requires TreeOk(rules, top, kids, count, first, last) && a !in rules && a != NULL && rule.parent == Nowhere
    requires rule.kind.Media? ==> rule.kind == Media(NULL, NULL)
    ensures TreeOk(rules[a := rule], top, kids[a := []], count, first, last)
  {
    hide ListOk;
    var n, more := rules[a := rule], kids[a := []];
    OtherList(rules, n, InSheet, first, last, top);
    forall m <- n ensures MediaOk(n, more, m) {
      if m == a {
        EmptyList(n, InRule(a));
      } else {
        assert MediaOk(rules, kids, m);
        if rules[m].kind.Media? { OtherList(rules, n, InRule(m), rules[m].kind.first, rules[m].kind.last, kids[m]); }
      }
    }
    forall r <- n ensures RuleOk(n, top, more, count, r) {
      if r != a { assert RuleOk(rules, top, kids, count, r); }
    }
  }

  lemma EmptyList(rules: Rules, p: Parent)
    ensures ListOk(rules, p, NULL, NULL, [])
  {
  }

  lemma {:induction false} CreateLinked(rules: Rules, n: Rules, a: Addr, r: Addr)
    requires ParentsOk(rules) && ParentsOk(n) && a !in rules && n.Keys == rules.Keys + {a} && r in rules
    requires forall x <- rules :: n[x] == rules[x]
    ensures Linked(n, r) <==> Linked(rules, r)
    decreases rules[r].index
  {
    if rules[r].parent.InRule? { CreateLinked(rules, n, a, rules[r].parent.rule); }
  }

  lemma {:induction false} SameParentsLinked(rules: Rules, n: Rules, r: Addr)
    requires ParentsOk(rules) && ParentsOk(n) && n.Keys == rules.Keys && r in rules
    requires forall x <- rules :: n[x].parent == rules[x].parent
    ensures Linked(n, r) <==> Linked(rules, r)
    decreases rules[r].index
  {
    if rules[r].parent.InRule? { SameParentsLinked(rules, n, rules[r].parent.rule); }
  }

  // What the pointers of a rule lead to.

  lemma TopPlace(rules: Rules, top: seq<Addr>, kids: Kids, count: nat, first: Addr, last: Addr, a: Addr) returns (i: nat)
    requires TreeOk(rules, top, kids, count, first, last) && a in rules && rules[a].parent == InSheet
    ensures i < |top| && top[i] == a && NULL !in rules
    ensures rules[a].next != NULL ==> rules[a].next in rules && rules[a].next != a
    ensures rules[a].prev != NULL ==> rules[a].prev in rules && rules[a].prev != a
  {
    assert RuleOk(rules, top, kids, count, a);
    i :| 0 <= i < |top| && top[i] == a;
    assert LinkOk(rules, InSheet, top, i);
    if i > 0 { assert LinkOk(rules, InSheet, top, i - 1); assert rules[top[i - 1]].index < rules[top[i]].index; }
    if i + 1 < |top| { assert LinkOk(rules, InSheet, top, i + 1); assert rules[top[i]].index < rules[top[i + 1]].index; }
  }

  lemma LastTop(rules: Rules, top: seq<Addr>, kids: Kids, count: nat, first: Addr, last: Addr)
    requires TreeOk(rules, top, kids, count, first, last)
    ensures NULL !in rules && (last != NULL ==> last in rules && rules[last].parent == InSheet)
  {
    LastOf(rules, InSheet, first, last, top);
  }

  lemma KidPlace(rules: Rules, top: seq<Addr>, kids: Kids, count: nat, first: Addr, last: Addr, m: Addr)
    requires TreeOk(rules, top, kids, count, first, last) && m in rules && rules[m].kind.Media?
    ensures NULL !in rules && m in kids
    ensures var end := rules[m].kind.last; end != m && (end != NULL ==> end in rules && rules[end].parent == InRule(m))
  {
    assert MediaOk(rules, kids, m);
    LastOf(rules, InRule(m), rules[m].kind.first, rules[m].kind.last, kids[m]);
    var end := rules[m].kind.last;
    if end in rules { assert RuleOk(rules, top, kids, count, end); }
  }
}
