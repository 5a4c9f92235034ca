/** A stylesheet: over every run its selector hash holds exactly the selectors of the rules linked in. */
module Stylesheet {
  import opened SelectorChain
  import opened SelectorHash
  import opened RuleTree

  /** What the chains are sorted by. */
  function KeysOf(sels: Sels, rules: Rules): map<Addr, Key> {
    map s | s in sels && sels[s].rule in rules :: Key(sels[s].specificity, rules[sels[s].rule].index)
  }

  /** In the cascade one selector may come before another: it is less specific, or as specific and its rule
      comes no later in the sheet. */
  ghost predicate MayPrecede(sels: Sels, rules: Rules, s: Addr, t: Addr) {
    && s in sels && t in sels && sels[s].rule in rules && sels[t].rule in rules
    && sels[s].specificity <= sels[t].specificity
    && (sels[s].specificity == sels[t].specificity ==> rules[sels[s].rule].index <= rules[sels[t].rule].index)
  }

  ghost predicate CascadeOrder(chains: Chains, sels: Sels, rules: Rules) {
    forall b, i, j :: 0 <= b < |chains| && 0 <= i < j < |chains[b]| ==> MayPrecede(sels, rules, chains[b][i].sel, chains[b][j].sel)
  }

  lemma HashOrder(chains: Chains, sels: Sels, rules: Rules)
    requires HashOk(chains, sels, KeysOf(sels, rules))
    ensures CascadeOrder(chains, sels, rules)
  {
    var keys := KeysOf(sels, rules);
    forall b, i, j | 0 <= b < |chains| && 0 <= i < j < |chains[b]| ensures MayPrecede(sels, rules, chains[b][i].sel, chains[b][j].sel) {
      var names := Names(chains[b]);
      assert ChainOk(chains[b], b, sels, keys);
      assert names[i] in names && names[j] in names;
      assert InOrder(keys[names[i]], keys[names[j]]);
    }
  }

  /** Selectors and rules know each other. */
  ghost predicate RuleSelsOk(sels: Sels, rules: Rules, r: Addr)
    requires r in rules
  {
    rules[r].kind.Selectors? ==> Distinct(rules[r].kind.list) && forall s <- rules[r].kind.list :: s in sels && sels[s].rule == r
  }

  ghost predicate SelOk(sels: Sels, rules: Rules, s: Addr)
    requires s in sels
  {
    var r := sels[s].rule;
    sels[s].slot < SLOTS && r in rules && rules[r].kind.Selectors? && s in rules[r].kind.list
  }

  ghost predicate SelsOk(sels: Sels, rules: Rules) {
    (forall s <- sels :: SelOk(sels, rules, s)) && (forall r <- rules :: RuleSelsOk(sels, rules, r))
  }

  /** The hash holds the selectors of the rules in the sheet and no others. */
  ghost predicate Agrees(chains: Chains, sels: Sels, rules: Rules)
    requires ParentsOk(rules) && SelsOk(sels, rules)
  {
    forall s <- sels :: InHash(chains, sels, s) <==> SelLinked(sels, rules, s)
  }

  ghost predicate SelLinked(sels: Sels, rules: Rules, s: Addr)
    requires ParentsOk(rules) && SelsOk(sels, rules) && s in sels
  {
    assert SelOk(sels, rules, s);
    Linked(rules, sels[s].rule)
  }

  function SelsOf(rules: Rules, a: Addr): seq<Addr>
    requires a in rules
  {
    if rules[a].kind.Selectors? then rules[a].kind.list else []
  }

  ghost predicate UnderSel(sels: Sels, rules: Rules, s: Addr, a: Addr)
    requires ParentsOk(rules) && s in sels
  {
    sels[s].rule in rules && Under(rules, sels[s].rule, a)
  }

  /** A selector belongs below one of the first j of these rules. */
  ghost predicate UnderBefore(sels: Sels, rules: Rules, list: seq<Addr>, j: nat, s: Addr)
    requires ParentsOk(rules) && s in sels && j <= |list|
  {
    exists i :: 0 <= i < j && UnderSel(sels, rules, s, list[i])
  }

  /** Below a rule without children are its own selectors only. */
  lemma LeafSels(rules: Rules, top: seq<Addr>, kids: Kids, count: nat, first: Addr, last: Addr, sels: Sels, a: Addr)
    requires TreeOk(rules, top, kids, count, first, last) && ParentsOk(rules) && SelsOk(sels, rules) && a in rules && !rules[a].kind.Media?
    ensures forall s <- sels :: UnderSel(sels, rules, s, a) <==> s in SelsOf(rules, a)
    ensures forall s <- SelsOf(rules, a) :: s in sels
  {
    hide TreeOk;
    assert RuleSelsOk(sels, rules, a);
    forall s <- sels ensures UnderSel(sels, rules, s, a) <==> s in SelsOf(rules, a) {
      assert SelOk(sels, rules, s);
      UnderLeaf(rules, top, kids, count, first, last, sels[s].rule, a);
    }
  }

  lemma MediaKids(rules: Rules, top: seq<Addr>, kids: Kids, count: nat, first: Addr, last: Addr, a: Addr)
    requires TreeOk(rules, top, kids, count, first, last) && a in rules && rules[a].kind.Media?
    ensures a in kids && rules[a].kind.first == At(kids[a], 0)
    ensures forall i :: 0 <= i < |kids[a]| ==> LinkOk(rules, InRule(a), kids[a], i)
    ensures forall i :: 0 <= i < |kids[a]| ==> kids[a][i] in rules && rules[a].index < rules[kids[a][i]].index <= count
    ensures Distinct(kids[a])
  {
    assert MediaOk(rules, kids, a);
    forall i | 0 <= i < |kids[a]|
      ensures LinkOk(rules, InRule(a), kids[a], i) && rules[kids[a][i]].index <= count && rules[a].index < rules[kids[a][i]].index
    {
      assert LinkOk(rules, InRule(a), kids[a], i);
      assert RuleOk(rules, top, kids, count, kids[a][i]);
    }
    forall i, j | 0 <= i < j < |kids[a]| ensures kids[a][i] != kids[a][j] {
      assert rules[kids[a][i]].index < rules[kids[a][j]].index;
    }
  }

  /** What is below the next child is not below those before it. */
  lemma KidsApart(rules: Rules, sels: Sels, a: Addr, list: seq<Addr>, j: nat)
    requires ParentsOk(rules) && j < |list| && Distinct(list)
    requires forall i :: 0 <= i < |list| ==> LinkOk(rules, InRule(a), list, i)
    ensures forall s <- sels :: UnderSel(sels, rules, s, list[j]) ==> !UnderBefore(sels, rules, list, j, s)
    ensures forall s <- sels :: UnderBefore(sels, rules, list, j + 1, s) <==> UnderBefore(sels, rules, list, j, s) || UnderSel(sels, rules, s, list[j])
  {
    assert LinkOk(rules, InRule(a), list, j);
    forall s <- sels, i | UnderSel(sels, rules, s, list[j]) && 0 <= i < j ensures !UnderSel(sels, rules, s, list[i]) {
      assert LinkOk(rules, InRule(a), list, i);
      SiblingsApart(rules, sels[s].rule, list[i], list[j], InRule(a));
    }
    forall s <- sels ensures UnderBefore(sels, rules, list, j + 1, s) <==> UnderBefore(sels, rules, list, j, s) || UnderSel(sels, rules, s, list[j]) {
    }
  }

  /** Below an @media rule is what is below its children. */
  lemma KidsAll(rules: Rules, top: seq<Addr>, kids: Kids, count: nat, first: Addr, last: Addr, sels: Sels, a: Addr)
    requires TreeOk(rules, top, kids, count, first, last) && ParentsOk(rules) && SelsOk(sels, rules)
    requires a in rules && rules[a].kind.Media? && a in kids
    ensures forall s <- sels :: UnderSel(sels, rules, s, a) <==> UnderBefore(sels, rules, kids[a], |kids[a]|, s)
  {
    hide TreeOk;
    forall s <- sels ensures UnderSel(sels, rules, s, a) <==> UnderBefore(sels, rules, kids[a], |kids[a]|, s) {
      assert SelOk(sels, rules, s);
      UnderChild(rules, top, kids, count, first, last, sels[s].rule, a);
    }
  }

  // What the hash and the selectors need of the rules.

  lemma SelsKept(sels: Sels, rules: Rules, n: Rules)
    requires SelsOk(sels, rules) && n.Keys == rules.Keys
    requires forall x <- rules :: n[x].kind == rules[x].kind || (rules[x].kind.Media? && n[x].kind.Media?)
    ensures SelsOk(sels, n)
  {
  }

  lemma KeysKept(sels: Sels, rules: Rules, n: Rules)
    requires n.Keys == rules.Keys && forall x <- rules :: n[x].index == rules[x].index
    ensures KeysOf(sels, n) == KeysOf(sels, rules)
  {
  }

  /** The order of the chains does not depend on rules that are not in the hash. */
  lemma HashKept(chains: Chains, sels: Sels, keys: map<Addr, Key>, also: Sels, more: map<Addr, Key>)
    requires HashOk(chains, sels, keys)
    requires forall s <- sels :: InHash(chains, sels, s) ==> s in also && also[s] == sels[s] && s in keys && s in more && more[s] == keys[s]
    ensures HashOk(chains, also, more)
  {
  }

  /** The selectors of a rule are those that name it. */
  lemma SelsAre(sels: Sels, rules: Rules, a: Addr)
    requires SelsOk(sels, rules) && a in rules
    ensures forall s <- sels :: sels[s].rule == a <==> s in SelsOf(rules, a)
    ensures forall s <- SelsOf(rules, a) :: s in sels
  {
  }

  /** What the hash holds is settled by the selectors of each chain. */
  lemma SameNames(chains: Chains, after: Chains, sels: Sels)
    requires |chains| == |after| && forall b :: 0 <= b < |chains| ==> Names(chains[b]) == Names(after[b])
    ensures forall s :: InHash(chains, sels, s) <==> InHash(after, sels, s)
  {
  }

  lemma HashSlots(chains: Chains, sels: Sels, keys: map<Addr, Key>)
    requires HashOk(chains, sels, keys)
    ensures |chains| == SLOTS
  {
  }

  lemma InHashKnown(chains: Chains, sels: Sels, s: Addr)
    requires InHash(chains, sels, s)
    ensures s in sels
  {
  }

  lemma InsertSlot(chains: Chains, sels: Sels, rules: Rules, s: Addr)
    requires SelsOk(sels, rules) && s in sels && |chains| == SLOTS
    ensures sels[s].slot < |chains|
  {
    assert SelOk(sels, rules, s);
  }

  /** A selector that is not in the hash is on no chain. */
  lemma NotThere(chains: Chains, sels: Sels, keys: map<Addr, Key>, list: seq<Addr>)
    requires HashOk(chains, sels, keys) && forall s <- list :: !InHash(chains, sels, s)
    ensures forall b, s :: 0 <= b < |chains| && s in list ==> s !in Names(chains[b])
  {
    forall b, s | 0 <= b < |chains| && s in list ensures s !in Names(chains[b]) {
      assert ChainOk(chains[b], b, sels, keys);
    }
  }

  /** The selectors below a rule. */
  ghost function Below(sels: Sels, rules: Rules, a: Addr): set<Addr>
    requires ParentsOk(rules)
  {
    set s | s in sels && UnderSel(sels, rules, s, a)
  }

  lemma AgreesKept(chains: Chains, after: Chains, sels: Sels, rules: Rules, n: Rules)
    requires ParentsOk(rules) && ParentsOk(n) && SelsOk(sels, rules) && SelsOk(sels, n) && Agrees(chains, sels, rules)
    requires n.Keys == rules.Keys && forall x <- rules :: Linked(n, x) == Linked(rules, x)
    requires forall s <- sels :: InHash(chains, sels, s) <==> InHash(after, sels, s)
    ensures Agrees(after, sels, n)
  {
  }

  /** A rule that is not in the sheet has no selector in the hash. */
  lemma NotInHash(chains: Chains, sels: Sels, rules: Rules, a: Addr)
    requires ParentsOk(rules) && SelsOk(sels, rules) && Agrees(chains, sels, rules) && a in rules && !Linked(rules, a)
    ensures forall s <- sels :: InHash(chains, sels, s) ==> sels[s].rule != a
    ensures forall s <- SelsOf(rules, a) :: !InHash(chains, sels, s)
  {
  }

  lemma KeysBut(sels: Sels, rules: Rules, n: Rules, a: Addr)
    requires SelsOk(sels, rules) && n.Keys == rules.Keys && forall x <- rules :: x != a ==> n[x].index == rules[x].index
    ensures forall s <- sels :: s in KeysOf(sels, rules) && s in KeysOf(sels, n)
    ensures forall s <- sels :: sels[s].rule != a ==> KeysOf(sels, n)[s] == KeysOf(sels, rules)[s]
  {
  }

  lemma CreateSels(chains: Chains, sels: Sels, added: Sels, rules: Rules, a: Addr, rule: Rule)
    requires ParentsOk(rules) && SelsOk(sels, rules) && HashOk(chains, sels, KeysOf(sels, rules)) && Agrees(chains, sels, rules)
    requires a !in rules && rule.parent == Nowhere && ParentsOk(rules[a := rule]) && added.Keys !! sels.Keys
    requires rule.kind.Selectors? ==> Distinct(rule.kind.list) && forall s :: s in rule.kind.list <==> s in added
    requires !rule.kind.Selectors? ==> added == map[]
    requires forall s <- added :: added[s].rule == a && added[s].slot < SLOTS
    requires forall x <- rules :: Linked(rules[a := rule], x) == Linked(rules, x)
    ensures var n, also := rules[a := rule], sels + added;
            SelsOk(also, n) && HashOk(chains, also, KeysOf(also, n)) && Agrees(chains, also, n)
  {
    hide InHash, SelOk, RuleSelsOk, HashOk, KeysOf, Linked, Distinct;
    var n, also := rules[a := rule], sels + added;
    forall s <- also ensures SelOk(also, n, s) { CreateSel(sels, added, rules, a, rule, s); }
    forall r <- n ensures RuleSelsOk(also, n, r) { CreateRuleSels(sels, added, rules, a, rule, r); }
    CreateHash(chains, sels, added, rules, a, rule);
    forall s <- also ensures InHash(chains, also, s) <==> SelLinked(also, n, s) {
      CreateAgrees(chains, sels, added, rules, a, rule, s);
    }
  }

  lemma CreateHash(chains: Chains, sels: Sels, added: Sels, rules: Rules, a: Addr, rule: Rule)
    requires SelsOk(sels, rules) && HashOk(chains, sels, KeysOf(sels, rules)) && a !in rules && added.Keys !! sels.Keys
    ensures HashOk(chains, sels + added, KeysOf(sels + added, rules[a := rule]))
  {
    hide InHash, SelOk, RuleSelsOk, HashOk;
    var n, also := rules[a := rule], sels + added;
    forall s <- sels ensures s in KeysOf(sels, rules) && s in KeysOf(also, n) && KeysOf(also, n)[s] == KeysOf(sels, rules)[s] {
      CreateKey(sels, added, rules, a, rule, s);
    }
    HashKept(chains, sels, KeysOf(sels, rules), also, KeysOf(also, n));
  }

  lemma CreateSel(sels: Sels, added: Sels, rules: Rules, a: Addr, rule: Rule, s: Addr)
    requires s in sels + added && (s in added || SelOk(sels, rules, s)) && a !in rules && (s in sels ==> s !in added)
    requires s in added ==> added[s].rule == a && added[s].slot < SLOTS && rule.kind.Selectors? && s in rule.kind.list
    ensures SelOk(sels + added, rules[a := rule], s)
  {
  }

  lemma CreateRuleSels(sels: Sels, added: Sels, rules: Rules, a: Addr, rule: Rule, r: Addr)
    requires a !in rules && (r == a || (r in rules && RuleSelsOk(sels, rules, r))) && added.Keys !! sels.Keys
    requires rule.kind.Selectors? ==> Distinct(rule.kind.list) && forall s <- rule.kind.list :: s in added && added[s].rule == a
    ensures RuleSelsOk(sels + added, rules[a := rule], r)
  {
  }

  lemma CreateKey(sels: Sels, added: Sels, rules: Rules, a: Addr, rule: Rule, s: Addr)
    requires s in sels && SelOk(sels, rules, s) && a !in rules && s !in added
    ensures s in KeysOf(sels, rules) && s in KeysOf(sels + added, rules[a := rule])
    ensures KeysOf(sels + added, rules[a := rule])[s] == KeysOf(sels, rules)[s]
  {
  }

  lemma CreateAgrees(chains: Chains, sels: Sels, added: Sels, rules: Rules, a: Addr, rule: Rule, s: Addr)
    requires ParentsOk(rules) && SelsOk(sels, rules) && HashOk(chains, sels, KeysOf(sels, rules)) && Agrees(chains, sels, rules)
    requires a !in rules && rule.parent == Nowhere && ParentsOk(rules[a := rule]) && SelsOk(sels + added, rules[a := rule])
    requires added.Keys !! sels.Keys && s in sels + added && (s in added ==> added[s].rule == a && added[s].slot < SLOTS)
    requires forall x <- rules :: Linked(rules[a := rule], x) == Linked(rules, x)
    ensures InHash(chains, sels + added, s) <==> SelLinked(sels + added, rules[a := rule], s)
  {
  }

  /** One rule got a parent; the others kept theirs, and all kept their indexes and selectors. */
  ghost predicate Attached(rules: Rules, n: Rules, a: Addr, p: Parent) {
    && n.Keys == rules.Keys && a in rules && n[a].parent == p
    && (forall x <- rules :: n[x].index == rules[x].index)
    && (forall x <- rules :: n[x].kind == rules[x].kind || (rules[x].kind.Media? && n[x].kind.Media?))
    && (forall x <- rules :: x != a ==> n[x].parent == rules[x].parent)
  }

  ghost predicate DetachedFrom(rules: Rules, n: Rules, a: Addr) {
    && n.Keys == rules.Keys && a in rules && n[a].parent == Nowhere
    && (forall x <- rules :: n[x].index == rules[x].index && n[x].kind == rules[x].kind)
    && (forall x <- rules :: x != a ==> n[x].parent == rules[x].parent)
  }

  lemma LinkedParent(rules: Rules, m: Addr)
    requires ParentsOk(rules) && m in rules && Linked(rules, m)
    ensures rules[m].parent != Nowhere
  {
  }

  lemma AttachOk(chains: Chains, before: Chains, sels: Sels, rules: Rules, n: Rules, a: Addr)
    requires ParentsOk(rules) && ParentsOk(n) && SelsOk(sels, rules) && Agrees(before, sels, rules) && a in rules
    requires rules[a].parent == Nowhere && a in n && Attached(rules, n, a, n[a].parent) && forall x <- rules :: rules[x].parent != InRule(a)
    requires n[a].parent == InSheet || (n[a].parent.InRule? && n[a].parent.rule in rules && Linked(rules, n[a].parent.rule))
    requires forall x :: InHash(chains, sels, x) <==> InHash(before, sels, x) || x in SelsOf(rules, a)
    ensures SelsOk(sels, n) && KeysOf(sels, n) == KeysOf(sels, rules) && Agrees(chains, sels, n)
    ensures forall x <- rules :: Linked(n, x) <==> x == a || Linked(rules, x)
  {
    hide InHash;
    SelsKept(sels, rules, n);
    KeysKept(sels, rules, n);
    SelsAre(sels, rules, a);
    forall x <- rules ensures Linked(n, x) <==> x == a || Linked(rules, x) { AttachLinked(rules, n, a, x); }
    forall s <- sels ensures InHash(chains, sels, s) <==> SelLinked(sels, n, s) {
      assert SelOk(sels, rules, s);
      assert InHash(before, sels, s) <==> SelLinked(sels, rules, s);
    }
  }

  /** Every selector below a rule of the sheet is in the hash. */
  lemma BelowIn(chains: Chains, sels: Sels, rules: Rules, a: Addr)
    requires ParentsOk(rules) && SelsOk(sels, rules) && Agrees(chains, sels, rules) && a in rules && rules[a].parent == InSheet
    ensures forall s <- sels :: UnderSel(sels, rules, s, a) ==> InHash(chains, sels, s)
  {
    hide InHash;
    forall s <- sels | UnderSel(sels, rules, s, a) ensures InHash(chains, sels, s) {
      UnderLinked(rules, sels[s].rule, a);
      assert SelLinked(sels, rules, s);
    }
  }

  lemma DetachOk(chains: Chains, before: Chains, sels: Sels, rules: Rules, n: Rules, a: Addr)
    requires ParentsOk(rules) && ParentsOk(n) && SelsOk(sels, rules) && Agrees(before, sels, rules) && DetachedFrom(rules, n, a)
    requires forall s <- sels :: InHash(chains, sels, s) <==> InHash(before, sels, s) && !UnderSel(sels, rules, s, a)
    ensures SelsOk(sels, n) && KeysOf(sels, n) == KeysOf(sels, rules) && Agrees(chains, sels, n)
    ensures forall x <- rules :: Linked(n, x) <==> Linked(rules, x) && !Under(rules, x, a)
  {
    hide InHash;
    SelsKept(sels, rules, n);
    KeysKept(sels, rules, n);
    forall x <- rules ensures Linked(n, x) <==> Linked(rules, x) && !Under(rules, x, a) { DetachLinked(rules, n, a, x); }
    forall s <- sels ensures InHash(chains, sels, s) <==> SelLinked(sels, n, s) {
      assert SelOk(sels, rules, s);
      assert InHash(before, sels, s) <==> SelLinked(sels, rules, s);
    }
  }

  class Sheet {
    var rules: Rules
    var sels: Sels
    var chains: Chains
    var ruleCount: nat
    var ruleList: Addr
    var lastRule: Addr
    ghost var top: seq<Addr>
    ghost var kids: Kids

    constructor ()
      ensures Valid() && rules == map[] && sels == map[] && ruleCount == 0
      ensures FiltersOk(chains, sels) && forall b :: 0 <= b < |chains| ==> chains[b] == []
    {
      rules, sels, kids, top := map[], map[], map[], [];
      chains := seq(SLOTS, _ => []);
      ruleCount, ruleList, lastRule := 0, NULL, NULL;
    }

    /** Lists, selectors and hash are well formed, whatever the hash holds. */
    ghost predicate Formed()
      reads this
    {
      && TreeOk(rules, top, kids, ruleCount, ruleList, lastRule) && ParentsOk(rules) && SelsOk(sels, rules)
      && HashOk(chains, sels, KeysOf(sels, rules))
    }

    ghost predicate Valid()
      reads this
    {
      Formed() && Agrees(chains, sels, rules)
    }

    /** css__selector_hash_insert: only a chain that is not empty needs room. */
    method HashInsert(s: Addr, room: bool) returns (ok: bool)
      requires Formed() && s in sels && !InHash(chains, sels, s)
      modifies this`chains
      ensures Formed() && sels[s].slot < |old(chains)|
      ensures ok <==> old(chains)[sels[s].slot] == [] || room
      ensures chains == if ok then PutOne(old(chains), sels, KeysOf(sels, rules), s) else old(chains)
    {
      hide TreeOk, Put;
      var b := sels[s].slot;
      assert SelOk(sels, rules, s);
      hide SelsOk;
      assert ChainOk(chains[b], b, sels, KeysOf(sels, rules));
      PutOk(chains[b], b, sels, KeysOf(sels, rules), s);
      var chain;
      ok, chain := InsertIntoChain(chains[b], ItemOf(sels, s), KeysOf(sels, rules), room);
      hide ChainOk;
      if ok {
        chains := chains[b := chain];
      }
    }

    /** css__selector_hash_remove: the selector leaves its chain, whose head keeps its filter. */
    method HashRemove(s: Addr) returns (ok: bool)
      requires Formed() && s in sels
      modifies this`chains
      ensures Formed() && (ok <==> old(InHash(chains, sels, s)))
      ensures chains == if ok then PurgeAll(old(chains), {s}) else old(chains)
    {
      hide TreeOk, Purged;
      var b := sels[s].slot;
      assert SelOk(sels, rules, s);
      assert ChainOk(chains[b], b, sels, KeysOf(sels, rules));
      var chain;
      ghost var i;
      ok, chain, i := RemoveFromChain(chains[b], s);
      if ok {
        WithoutOk(Names(chains[b]), KeysOf(sels, rules), i);
        PurgeOne(chains, sels, KeysOf(sels, rules), s, i);
        chains := chains[b := chain];
      }
    }

    /** The loop of _add_selectors that takes back what it had put in. */
    method TakeBack(list: seq<Addr>, n: nat)
      requires Formed() && n <= |list| && Distinct(list) && forall j :: 0 <= j < n ==> InHash(chains, sels, list[j])
      modifies this`chains
      ensures Formed() && chains == PurgeAll(old(chains), SetOf(list[..n]))
    {
      hide TreeOk, SelsOk, HashOk, PurgeAll, InHash, KeysOf;
      var i := n;
      ghost var gone: set<Addr> := {};
      PurgeNone(chains);
      while i > 0
        invariant 0 <= i <= n && Formed() && chains == PurgeAll(old(chains), gone)
        invariant gone == SetOf(list[i..n])
        invariant forall j :: 0 <= j < i ==> InHash(chains, sels, list[j])
      {
        i := i - 1;
        ghost var was := chains;
        InHashKnown(chains, sels, list[i]);
        var ok := HashRemove(list[i]);
        PurgeTwice(old(chains), gone, {list[i]});
        PurgeMembers(was, sels, {list[i]});
        assert list[i..n] == [list[i]] + list[i + 1..n];
        gone := gone + {list[i]};
      }
      assert list[0..n] == list[..n];
    }

    /**
     * _add_selectors, for a rule that has no children: all of its selectors go in, or they are taken back from
     * the first on for which there is no memory, room(k) being the answer for the k-th if it needs any.
     */
    method AddSelectors(a: Addr, room: nat -> bool) returns (ok: bool)
      requires Formed() && a in rules
      requires forall s <- SelsOf(rules, a) :: !InHash(chains, sels, s)
      modifies this`chains
      ensures Formed()
      ensures ok <==> forall k :: 0 <= k < |SelsOf(rules, a)| && NeedsRoom(old(chains), sels, SelsOf(rules, a), k) ==> room(k)
      ensures var list := SelsOf(rules, a);
              chains == if ok then PutAll(old(chains), sels, KeysOf(sels, rules), list, |list|)
                        else RolledBack(old(chains), sels, KeysOf(sels, rules), list, PutCount(old(chains), sels, list, room, |list|))
      ensures forall x :: InHash(chains, sels, x) <==> old(InHash(chains, sels, x)) || (ok && x in SelsOf(rules, a))
    {
      hide TreeOk, HashOk, InHash, PutOne, PurgeAll, RolledBack, Head, KeysOf, PutCount, ParentsOk, NeedsRoom;
      var list := SelsOf(rules, a);
      ghost var keys, was := KeysOf(sels, rules), chains;
      assert RuleSelsOk(sels, rules, a);
      assert |was| == SLOTS by { HashSlots(was, sels, keys); }
      forall s <- list ensures s in sels && sels[s].slot < |was| { InsertSlot(was, sels, rules, s); }
      hide SelsOk;
      var i := 0;
      while i < |list|
        invariant 0 <= i <= |list| && Formed() && chains == PutAll(was, sels, keys, list, i)
        invariant forall j :: 0 <= j < i && NeedsRoom(was, sels, list, j) ==> room(j)
        invariant forall x :: InHash(chains, sels, x) <==> InHash(was, sels, x) || x in list[..i]
      {
        assert list[i] !in list[..i];
        RoomNeeded(was, sels, keys, list, i);
        ghost var before := chains;
        var done := HashInsert(list[i], room(i));
        if !done {
          GiveUp(list, i, was, room);
          return false;
        }
        PutMembers(before, sels, keys, list[i]);
        assert list[..i + 1] == list[..i] + [list[i]];
        i := i + 1;
      }
      assert list[..i] == list;
      ok := true;
    }

    method GiveUp(list: seq<Addr>, i: nat, ghost was: Chains, ghost room: nat -> bool)
      requires Formed() && i < |list| && Distinct(list) && |was| == SLOTS && chains == PutAll(was, sels, KeysOf(sels, rules), list, i)
      requires forall x :: InHash(chains, sels, x) <==> InHash(was, sels, x) || x in list[..i]
      requires forall j :: 0 <= j < i && NeedsRoom(was, sels, list, j) ==> room(j)
      requires NeedsRoom(was, sels, list, i) && !room(i) && forall s <- list :: !InHash(was, sels, s) && s in sels
      requires HashOk(was, sels, KeysOf(sels, rules))
      modifies this`chains
      ensures Formed() && chains == RolledBack(was, sels, KeysOf(sels, rules), list, PutCount(was, sels, list, room, |list|))
      ensures forall x :: InHash(chains, sels, x) <==> InHash(was, sels, x)
    {
      hide TreeOk, SelsOk, InHash, PutAll, PurgeAll, RolledBack, Head;
      ghost var keys := KeysOf(sels, rules);
      assert forall j :: 0 <= j < i ==> list[..i][j] == list[j];
      TakeBack(list, i);
      NotThere(was, sels, keys, list[..i]);
      RollBack(was, sels, keys, list, i);
      assert PutCount(was, sels, list, room, |list|) == i;
      RolledBackSame(was, sels, keys, list, i);
      SameNames(chains, was, sels);
    }

    /** _remove_selectors: the selectors of a rule, and of all below it, go out. */
    method RemoveSelectors(a: Addr) returns (ok: bool)
      requires Formed() && a in rules && rules[a].index <= ruleCount
      requires forall s <- sels :: UnderSel(sels, rules, s, a) ==> InHash(chains, sels, s)
      modifies this`chains
      ensures Formed() && ok && chains == PurgeAll(old(chains), Below(sels, rules, a))
      decreases ruleCount - rules[a].index, 1
    {
      hide TreeOk, HashOk, InHash, SelsOk, UnderSel, PurgeAll;
      if rules[a].kind.Media? {
        ok := RemoveBelow(a);
      } else {
        LeafSels(rules, top, kids, ruleCount, ruleList, lastRule, sels, a);
        ok := RemoveOwn(a);
        assert Below(sels, rules, a) == SetOf(SelsOf(rules, a));
      }
    }

    method RemoveOwn(a: Addr) returns (ok: bool)
      requires Formed() && a in rules && forall s <- SelsOf(rules, a) :: InHash(chains, sels, s)
      modifies this`chains
      ensures Formed() && ok && chains == PurgeAll(old(chains), SetOf(SelsOf(rules, a)))
    {
      hide TreeOk, HashOk, PurgeAll, InHash;
      var list := SelsOf(rules, a);
      assert RuleSelsOk(sels, rules, a);
      hide SelsOk;
      var i := 0;
      ghost var gone: set<Addr> := {};
      PurgeNone(chains);
      while i < |list|
        invariant 0 <= i <= |list| && Formed() && chains == PurgeAll(old(chains), gone)
        invariant gone == SetOf(list[..i])
        invariant forall j :: i <= j < |list| ==> InHash(chains, sels, list[j])
      {
        ghost var was := chains;
        var done := HashRemove(list[i]);
        PurgeTwice(old(chains), gone, {list[i]});
        PurgeMembers(was, sels, {list[i]});
        assert list[..i + 1] == list[..i] + [list[i]];
        gone := gone + {list[i]};
        i := i + 1;
      }
      assert list[..i] == list;
      ok := true;
    }

    method RemoveBelow(a: Addr) returns (ok: bool)
      requires Formed() && a in rules && rules[a].kind.Media? && rules[a].index <= ruleCount
      requires forall s <- sels :: UnderSel(sels, rules, s, a) ==> InHash(chains, sels, s)
      modifies this`chains
      ensures Formed() && ok && chains == PurgeAll(old(chains), Below(sels, rules, a))
      decreases ruleCount - rules[a].index, 0
    {
      hide TreeOk, HashOk, InHash, SelsOk, UnderSel, PurgeAll;
      ok := true;
      var r := rules[a].kind.first;
      ghost var j, gone: set<Addr> := 0, {};
      MediaKids(rules, top, kids, ruleCount, ruleList, lastRule, a);
      ghost var list := kids[a];
      KidsAll(rules, top, kids, ruleCount, ruleList, lastRule, sels, a);
      if |list| > 0 { assert LinkOk(rules, InRule(a), list, 0); }
      PurgeNone(chains);
      while r != NULL
        invariant 0 <= j <= |list| && r == At(list, j) && (j < |list| ==> r != NULL) && Formed() && ok
        invariant chains == PurgeAll(old(chains), gone)
        invariant gone == set s | s in sels && UnderBefore(sels, rules, list, j, s)
        decreases |list| - j
      {
        KidsApart(rules, sels, a, list, j);
        assert LinkOk(rules, InRule(a), list, j);
        PurgeMembers(old(chains), sels, gone);
        ok := RemoveSelectors(r);
        PurgeTwice(old(chains), gone, Below(sels, rules, r));
        gone := gone + Below(sels, rules, r);
        r := rules[r].next;
        j := j + 1;
        if j < |list| { assert LinkOk(rules, InRule(a), list, j); }
      }
      assert gone == Below(sels, rules, a);
    }

    /** A rule about to be added gets its index; it is not in the sheet yet. */
    method SetIndex(a: Addr)
      requires Valid() && a in rules && rules[a].parent == Nowhere && (rules[a].kind.Media? ==> rules[a].kind.first == NULL)
      modifies this`rules
      ensures Valid() && rules == old(rules)[a := old(rules)[a].(index := ruleCount)]
      ensures forall x <- rules :: rules[x].parent != InRule(a)
      ensures forall x <- rules :: x in old(rules) && Linked(rules, x) == old(Linked(rules, x))
      ensures forall s <- SelsOf(rules, a) :: !InHash(chains, sels, s)
    {
      hide TreeOk, HashOk, InHash, ParentsOk;
      ghost var n := rules[a := rules[a].(index := ruleCount)];
      NoChildren(rules, top, kids, ruleCount, ruleList, lastRule, a);
      IndexTree(rules, top, kids, ruleCount, ruleList, lastRule, a, ruleCount);
      TreeParents(n, top, kids, ruleCount, ruleList, lastRule);
      SelsKept(sels, rules, n);
      SelsAre(sels, rules, a);
      forall x <- rules ensures Linked(n, x) == Linked(rules, x) { SameParentsLinked(rules, n, x); }
      AgreesKept(chains, chains, sels, rules, n);
      NotInHash(chains, sels, rules, a);
      KeysBut(sels, rules, n, a);
      HashKept(chains, sels, KeysOf(sels, rules), sels, KeysOf(sels, n));
      rules := rules[a := rules[a].(index := ruleCount)];
    }

    /** A rule of the given kind, with selectors of its own, made outside the sheet. */
    method CreateRule(a: Addr, kind: Kind, added: Sels)
      requires Valid() && a != NULL && a !in rules && added.Keys !! sels.Keys
      requires kind.Media? ==> kind == Media(NULL, NULL)
      requires kind.Selectors? ==> Distinct(kind.list) && forall s :: s in kind.list <==> s in added
      requires !kind.Selectors? ==> added == map[]
      requires forall s <- added :: added[s].rule == a && added[s].slot < SLOTS
      modifies this`rules, this`sels, this`kids
      ensures Valid() && rules == old(rules)[a := Rule(kind, NULL, NULL, Nowhere, 0)] && sels == old(sels) + added
      ensures forall x <- old(rules) :: Linked(rules, x) == old(Linked(rules, x))
      ensures old(FiltersOk(chains, sels)) ==> FiltersOk(chains, sels)
    {
      hide TreeOk, HashOk, InHash, ParentsOk, FiltersOk, SelsOk, Agrees, KeysOf;
      var rule := Rule(kind, NULL, NULL, Nowhere, 0);
      ghost var n, also := rules[a := rule], sels + added;
      if FiltersOk(chains, sels) { FiltersGrow(chains, sels, also); }
      CreateTree(rules, top, kids, ruleCount, ruleList, lastRule, a, rule);
      TreeParents(n, top, kids[a := []], ruleCount, ruleList, lastRule);
      forall x <- rules ensures Linked(n, x) == Linked(rules, x) { CreateLinked(rules, n, a, x); }
      CreateSels(chains, sels, added, rules, a, rule);
      kids := kids[a := []];
      rules, sels := rules[a := rule], sels + added;
    }

    /** What the chains are sorted by once a rule has the next index. */
    ghost function NextKeys(a: Addr): map<Addr, Key>
      requires a in rules
      reads this
    {
      KeysOf(sels, rules[a := rules[a].(index := ruleCount)])
    }

    /**
     * css__stylesheet_add_rule, for a rule outside the sheet that has no children: it becomes the last of the
     * sheet or of an @media rule of the sheet, exactly if there is memory for each of its selectors that needs
     * some. Otherwise nothing changes but its index and, in some cases, filters.
     */
    method AddRule(a: Addr, m: Addr, room: nat -> bool) returns (ok: bool)
      requires Valid() && a in rules && rules[a].parent == Nowhere && (rules[a].kind.Media? ==> rules[a].kind.first == NULL)
      requires m != NULL ==> m in rules && rules[m].kind.Media? && Linked(rules, m)
      modifies this
      ensures Valid() && CascadeOrder(chains, sels, rules) && sels == old(sels) && rules.Keys == old(rules).Keys
      ensures var list := old(SelsOf(rules, a));
              ok <==> forall k :: 0 <= k < |list| && NeedsRoom(old(chains), sels, list, k) ==> room(k)
      ensures !ok ==> top == old(top) && kids == old(kids) && ruleCount == old(ruleCount)
                      && rules == old(rules)[a := old(rules)[a].(index := ruleCount)]
      ensures !ok ==> var list := old(SelsOf(rules, a));
                      var n := PutCount(old(chains), sels, list, room, |list|);
                      && chains == RolledBack(old(chains), sels, old(NextKeys(a)), list, n)
                      && (chains == old(chains) <==> HeadsFit(old(chains), sels, old(NextKeys(a)), list, n))
                      && (old(FiltersOk(chains, sels)) ==> (FiltersOk(chains, sels) <==> chains == old(chains)))
      ensures ok ==> forall x <- rules :: x in old(rules) && (Linked(rules, x) <==> x == a || old(Linked(rules, x)))
      ensures ok ==> ruleCount == old(ruleCount) + 1 && Attached(old(rules)[a := old(rules)[a].(index := old(ruleCount))], rules, a, if m == NULL then InSheet else InRule(m))
      ensures ok ==> var list := old(SelsOf(rules, a));
                     && chains == PutAll(old(chains), sels, old(NextKeys(a)), list, |list|)
                     && (old(FiltersOk(chains, sels)) ==> FiltersOk(chains, sels))
      ensures ok && m == NULL ==> top == old(top) + [a] && kids == old(kids)
      ensures ok && m != NULL ==> m in old(kids) && kids == old(kids)[m := old(kids)[m] + [a]] && top == old(top)
    {
      hide TreeOk, HashOk, InHash, ParentsOk, Agrees, SelsOk, PutAll, RolledBack, HeadsFit, FiltersOk, NeedsRoom, PutCount, CascadeOrder;
      ghost var before, list := chains, SelsOf(rules, a);
      SetIndex(a);
      ok := AddSelectors(a, room);
      if !ok {
        AgreesKept(before, chains, sels, rules, rules);
        RolledBackSame(before, sels, KeysOf(sels, rules), list, PutCount(before, sels, list, room, |list|));
        HashOrder(chains, sels, rules);
        return;
      }
      if FiltersOk(before, sels) { PutAllFilters(before, sels, KeysOf(sels, rules), list, |list|); }
      LinkRule(a, m, before);
      HashOrder(chains, sels, rules);
    }

    /** The second half: the rule, whose selectors are in, is linked in. */
    method LinkRule(a: Addr, m: Addr, ghost before: Chains)
      requires Formed() && Agrees(before, sels, rules)
      requires a in rules && rules[a].parent == Nowhere && rules[a].index == ruleCount && forall x <- rules :: rules[x].parent != InRule(a)
      requires m != NULL ==> m in rules && rules[m].kind.Media? && Linked(rules, m)
      requires forall x :: InHash(chains, sels, x) <==> InHash(before, sels, x) || x in SelsOf(rules, a)
      modifies this`rules, this`ruleList, this`lastRule, this`ruleCount, this`top, this`kids
      ensures Valid() && ruleCount == old(ruleCount) + 1 && Attached(old(rules), rules, a, if m == NULL then InSheet else InRule(m))
      ensures forall x <- rules :: x in old(rules) && (Linked(rules, x) <==> x == a || old(Linked(rules, x)))
      ensures m == NULL ==> top == old(top) + [a] && kids == old(kids)
      ensures m != NULL ==> m in old(kids) && kids == old(kids)[m := old(kids)[m] + [a]] && top == old(top)
    {
      hide TreeOk, HashOk, InHash, ParentsOk, Agrees, SelsOk, Linked, Appended, AppendedKid;
      ghost var was := rules;
      if m != NULL {
        LinkedParent(rules, m);
        LinkKid(a, m);
      } else {
        LinkTop(a);
      }
      TreeParents(rules, top, kids, ruleCount, ruleList, lastRule);
      AttachOk(chains, before, sels, was, rules, a);
    }

    method LinkTop(a: Addr)
      requires TreeOk(rules, top, kids, ruleCount, ruleList, lastRule)
      requires a in rules && rules[a].parent == Nowhere && rules[a].index == ruleCount
      modifies this`rules, this`ruleList, this`lastRule, this`ruleCount, this`top
      ensures TreeOk(rules, top, kids, ruleCount, ruleList, lastRule) && top == old(top) + [a] && ruleCount == old(ruleCount) + 1
      ensures Attached(old(rules), rules, a, InSheet)
    {
      hide TreeOk;
      AppendTop(rules, top, kids, ruleCount, ruleList, lastRule, a);
      LastTop(rules, top, kids, ruleCount, ruleList, lastRule);
      ghost var n := Appended(rules, a, lastRule, InSheet);
      top := top + [a];
      if lastRule == NULL {
        rules := rules[a := rules[a].(parent := InSheet, prev := NULL, next := NULL)];
        ruleList := a;
      } else {
        rules := rules[lastRule := rules[lastRule].(next := a)];
        rules := rules[a := rules[a].(parent := InSheet, prev := lastRule, next := NULL)];
      }
      lastRule := a;
      ruleCount := ruleCount + 1;
      assert rules == n;
    }

    method LinkKid(a: Addr, m: Addr)
      requires TreeOk(rules, top, kids, ruleCount, ruleList, lastRule)
      requires a in rules && rules[a].parent == Nowhere && rules[a].index == ruleCount
      requires m in rules && rules[m].kind.Media? && rules[m].parent != Nowhere
      modifies this`rules, this`ruleCount, this`kids
      ensures TreeOk(rules, top, kids, ruleCount, ruleList, lastRule) && ruleCount == old(ruleCount) + 1
      ensures m in old(kids) && kids == old(kids)[m := old(kids)[m] + [a]]
      ensures Attached(old(rules), rules, a, InRule(m))
    {
      hide TreeOk;
      KidPlace(rules, top, kids, ruleCount, ruleList, lastRule, m);
      AppendKid(rules, top, kids, ruleCount, ruleList, lastRule, a, m);
      var last := rules[m].kind.last;
      ghost var was := rules;
      kids := kids[m := kids[m] + [a]];
      if last == NULL {
        rules := rules[a := rules[a].(parent := InRule(m), prev := NULL, next := NULL)];
        rules := rules[m := rules[m].(kind := Media(a, a))];
      } else {
        rules := rules[last := rules[last].(next := a)];
        rules := rules[a := rules[a].(parent := InRule(m), prev := last, next := NULL)];
        rules := rules[m := rules[m].(kind := Media(rules[m].kind.first, a))];
      }
      ruleCount := ruleCount + 1;
      assert rules == AppendedKid(was, a, m);
      AppendedKidIs(was, a, m);
    }

    /** css__stylesheet_remove_rule, for a top-level rule: it leaves with all that is below it. */
    method RemoveRule(a: Addr) returns (ok: bool)
      requires Valid() && a in rules && rules[a].parent == InSheet
      modifies this
      ensures Valid() && CascadeOrder(chains, sels, rules) && ok && sels == old(sels) && rules.Keys == old(rules).Keys && kids == old(kids) && ruleCount == old(ruleCount)
      ensures forall x <- rules :: x in old(rules) && (Linked(rules, x) <==> old(Linked(rules, x)) && !old(Under(rules, x, a)))
      ensures exists i :: 0 <= i < |old(top)| && old(top)[i] == a && top == Without(old(top), i)
      ensures chains == PurgeAll(old(chains), old(Below(sels, rules, a)))
      ensures old(FiltersOk(chains, sels)) ==>
                (FiltersOk(chains, sels) <==> forall b :: 0 <= b < |old(chains)| ==> HeadFits(old(chains)[b], old(Below(sels, rules, a))))
    {
      hide TreeOk, HashOk, InHash, ParentsOk, Agrees, SelsOk, Linked, Under, PurgeAll, FiltersOk, HeadFits, CascadeOrder;
      ghost var before, gone := chains, Below(sels, rules, a);
      BelowIn(chains, sels, rules, a);
      assert rules[a].index <= ruleCount by { BelowCount(rules, top, kids, ruleCount, ruleList, lastRule, InSheet); }
      ok := RemoveSelectors(a);
      PurgeMembers(before, sels, gone);
      if FiltersOk(before, sels) { PurgeFilters(before, sels, gone); }
      ghost var was := rules;
      Unlink(a);
      TreeParents(rules, top, kids, ruleCount, ruleList, lastRule);
      DetachOk(chains, before, sels, was, rules, a);
      HashOrder(chains, sels, rules);
    }

    method Unlink(a: Addr)
      requires TreeOk(rules, top, kids, ruleCount, ruleList, lastRule) && a in rules && rules[a].parent == InSheet
      modifies this`rules, this`ruleList, this`lastRule, this`top
      ensures TreeOk(rules, top, kids, ruleCount, ruleList, lastRule)
      ensures exists i :: 0 <= i < |old(top)| && old(top)[i] == a && top == Without(old(top), i)
      ensures DetachedFrom(old(rules), rules, a)
    {
      hide TreeOk, Without;
      ghost var i := TopPlace(rules, top, kids, ruleCount, ruleList, lastRule, a);
      DetachTop(rules, top, kids, ruleCount, ruleList, lastRule, i);
      ghost var n := Detached(rules, a);
      top := Without(top, i);
      var next, prev := rules[a].next, rules[a].prev;
      if next == NULL {
        lastRule := prev;
      } else {
        rules := rules[next := rules[next].(prev := prev)];
      }
      if prev == NULL {
        ruleList := next;
      } else {
        rules := rules[prev := rules[prev].(next := next)];
      }
      rules := rules[a := rules[a].(parent := Nowhere, prev := NULL, next := NULL)];
      assert rules == n;
    }
  }

  // Runs that leave a filter wrong.

  lemma FirstPut(chains: Chains, sels: Sels, keys: map<Addr, Key>, s: Addr)
    requires s in sels && sels[s].slot == 0 && |chains| > 0 && chains[0] == []
    ensures PutAll(chains, sels, keys, [s], 1)[0] == [ItemOf(sels, s)]
  {
    assert PutAll(chains, sels, keys, [s], 0) == chains;
  }

  lemma SecondPut(chains: Chains, sels: Sels, keys: map<Addr, Key>, x: Item, s: Addr)
    requires s in sels && sels[s].slot == 0 && |chains| > 0 && chains[0] == [x] && !Passes(keys, x.sel, s)
    ensures PutAll(chains, sels, keys, [s], 1)[0] == [x, ItemOf(sels, s)]
  {
    assert PutAll(chains, sels, keys, [s], 0) == chains;
    assert Place(Names([x]), keys, s) == 1;
  }

  /** A chain of one item that another is put after does not fit once the first has gone. */
  lemma LosesHead(x: Item, y: Item)
    requires x.sel != y.sel && x.bloom != y.bloom
    ensures !HeadFits([x, y], {x.sel})
  {
    assert [x, y][1..] == [y] && [y][1..] == [];
    assert Keep([y], {x.sel}) == [y] + Keep([], {x.sel});
  }

  function In0(rule: Addr, specificity: nat, bloom: nat): Selector {
    Selector(0, specificity, rule, bloom)
  }

  ghost predicate Prepared(sheet: Sheet, specificity: nat, list: seq<Addr>)
    reads sheet
  {
    && sheet.Valid() && FiltersOk(sheet.chains, sheet.sels) && |sheet.chains| == SLOTS && sheet.chains[0] == [Item(10, 7)]
    && sheet.rules.Keys == {1, 2} && sheet.rules[1].kind == Selectors([10]) && sheet.rules[1].parent == InSheet && sheet.rules[1].index == 0
    && sheet.rules[2].kind == Selectors(list) && sheet.rules[2].parent == Nowhere && sheet.ruleCount == 1
    && 10 in sheet.sels && sheet.sels[10] == In0(1, specificity, 7)
    && (forall s <- list :: s in sheet.sels && sheet.sels[s] == In0(2, 1, 8))
  }

  /** Two rules outside an empty sheet. */
  method Unlinked(specificity: nat, list: seq<Addr>) returns (sheet: Sheet)
    requires list == [20] || list == [20, 21]
    ensures fresh(sheet) && sheet.Valid() && FiltersOk(sheet.chains, sheet.sels) && |sheet.chains| == SLOTS && sheet.chains[0] == []
    ensures sheet.rules == map[1 := Rule(Selectors([10]), NULL, NULL, Nowhere, 0), 2 := Rule(Selectors(list), NULL, NULL, Nowhere, 0)]
    ensures sheet.ruleCount == 0 && 10 in sheet.sels && sheet.sels[10] == In0(1, specificity, 7)
    ensures forall s <- list :: s in sheet.sels && sheet.sels[s] == In0(2, 1, 8)
  {
    hide Sheet.Formed, Agrees, FiltersOk, Linked, Distinct;
    sheet := new Sheet();
    assert |sheet.chains| == SLOTS by { SheetSlots(sheet); }
    DistinctFew();
    sheet.CreateRule(1, Selectors([10]), map[10 := In0(1, specificity, 7)]);
    sheet.CreateRule(2, Selectors(list), map s | s in list :: In0(2, 1, 8));
  }

  /** One rule in the sheet, and another outside it with selectors of specificity 1 in the same chain. */
  method TwoRules(specificity: nat, list: seq<Addr>) returns (sheet: Sheet)
    requires list == [20] || list == [20, 21]
    ensures fresh(sheet) && Prepared(sheet, specificity, list)
  {
    hide Sheet.Formed, Agrees, FiltersOk, Linked, PutAll, RolledBack, HeadsFit, KeysOf, PutCount, Distinct;
    sheet := Unlinked(specificity, list);
    ghost var chains, keys := sheet.chains, sheet.NextKeys(1);
    assert !NeedsRoom(chains, sheet.sels, [10], 0);
    var ok := sheet.AddRule(1, NULL, k => true);
    FirstPut(chains, sheet.sels, keys, 10);
  }

  lemma BelowLeaf(sheet: Sheet, a: Addr)
    requires sheet.Formed() && a in sheet.rules && !sheet.rules[a].kind.Media?
    ensures Below(sheet.sels, sheet.rules, a) == SetOf(SelsOf(sheet.rules, a))
  {
    hide TreeOk, HashOk, ParentsOk, SelsOk, UnderSel;
    LeafSels(sheet.rules, sheet.top, sheet.kids, sheet.ruleCount, sheet.ruleList, sheet.lastRule, sheet.sels, a);
  }

  lemma DistinctFew()
    ensures Distinct([10]) && Distinct([20]) && Distinct([20, 21])
  {
  }

  lemma SheetSlots(sheet: Sheet)
    requires sheet.Formed()
    ensures |sheet.chains| == SLOTS
  {
  }

  /** Two rules whose selectors share a chain: removing the first leaves the second with the wrong filter. */
  method StaleAfterRemoval() returns (sheet: Sheet)
    ensures sheet.Valid() && !FiltersOk(sheet.chains, sheet.sels)
  {
    hide Sheet.Formed, Agrees, FiltersOk, Linked, PutAll, RolledBack, HeadsFit, HeadFits, PurgeAll, NeedsRoom, PutCount;
    sheet := TwoRules(1, [20]);
    ghost var chains, keys := sheet.chains, sheet.NextKeys(2);
    var ok := sheet.AddRule(2, NULL, k => true);
    SecondPut(chains, sheet.sels, keys, Item(10, 7), 20);
    chains := sheet.chains;
    assert Below(sheet.sels, sheet.rules, 1) == {10} by { BelowLeaf(sheet, 1); }
    ok := sheet.RemoveRule(1);
    LosesHead(Item(10, 7), Item(20, 8));
    assert !HeadFits(chains[0], {10});
  }

  /** A rule that cannot be added for want of memory leaves a rule of the sheet with the wrong filter. */
  method StaleAfterRollBack() returns (sheet: Sheet)
    ensures sheet.Valid() && !FiltersOk(sheet.chains, sheet.sels)
  {
    hide Sheet.Formed, Agrees, FiltersOk, Linked, PutAll, RolledBack;
    sheet := TwoRules(5, [20, 21]);
    ghost var chains, keys, list := sheet.chains, sheet.NextKeys(2), [20, 21];
    assert NeedsRoom(chains, sheet.sels, list, 0) && NeedsRoom(chains, sheet.sels, list, 1);
    var ok := sheet.AddRule(2, NULL, k => k == 0);
    assert Passes(keys, 10, 20);
    assert Head(Item(10, 7), 0, sheet.sels, keys, list, 0) == Item(10, 7);
    assert Head(Item(10, 7), 0, sheet.sels, keys, list, 1) == Item(20, 8);
    assert !HeadsFit(chains, sheet.sels, keys, list, 1);
  }
}
