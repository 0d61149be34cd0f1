/** Day 5: pages of an update must respect the ordering rules `a|b` ("a
    before b"); the rules become a comparator on pages, updates that are
    already sorted contribute their middle page, and the others are sorted
    first (day05/src/lib.rs). */
module Day05 {
  import opened Wrappers
  import opened Text

  datatype Ordering = Less | Equal | Greater

  /** The two sets `OrderingRules::new` attaches to a page id: the pages it
      must precede and the pages that must precede it. */
  datatype OrderRule = OrderRule(lessThan: set<nat>, greaterThan: set<nat>)

  /** A page and, when its id heads some rule, the shared rule record. */
  datatype Page = Page(id: nat, orderRule: Option<OrderRule>)

  /** A parsed rule `a|b`. */
  datatype Rule = Rule(before: nat, after: nat)

  /** The rule grouping of `parse::order_rules`: for every rule `a|b`, `b`
      joins the set kept under `a`. */
  function GroupRules(rules: seq<Rule>): (pageMap: map<nat, set<nat>>)
    ensures forall a :: a in pageMap <==> exists i | 0 <= i < |rules| :: rules[i].before == a
    ensures forall a, b | a in pageMap :: b in pageMap[a] <==> Rule(a, b) in rules
  {
    if |rules| == 0 then map[]
    else
      var init := rules[..|rules| - 1];
      var last := rules[|rules| - 1];
      assert rules == init + [last];
      AddRuleGroups(init, last, GroupRules(init));
      AddRule(GroupRules(init), last)
  }

  /** `entry(a).or_default().insert(b)` for the rule `a|b`. */
  function AddRule(pageMap: map<nat, set<nat>>, rule: Rule): map<nat, set<nat>> {
    var existing := if rule.before in pageMap then pageMap[rule.before] else {};
    pageMap[rule.before := existing + {rule.after}]
  }

  /** Adding one more rule to the grouping of the earlier ones groups them all. */
  lemma AddRuleGroups(init: seq<Rule>, last: Rule, m: map<nat, set<nat>>)
    requires forall a :: a in m <==> exists i | 0 <= i < |init| :: init[i].before == a
    requires forall a, b | a in m :: b in m[a] <==> Rule(a, b) in init
    ensures var r, rules := AddRule(m, last), init + [last];
            (forall a :: a in r <==> exists i | 0 <= i < |rules| :: rules[i].before == a) &&
            (forall a, b | a in r :: b in r[a] <==> Rule(a, b) in rules)
  {
    var r, rules := AddRule(m, last), init + [last];
    assert rules[|init|] == last;
    forall a ensures a in r <==> exists i | 0 <= i < |rules| :: rules[i].before == a {
      if a in m && a != last.before {
        var i :| 0 <= i < |init| && init[i].before == a;
        assert rules[i] == init[i];
      }
      if exists i | 0 <= i < |rules| :: rules[i].before == a {
        var i :| 0 <= i < |rules| && rules[i].before == a;
        if i < |init| { assert init[i] == rules[i]; }
      }
    }
    forall a, b | a in r ensures b in r[a] <==> Rule(a, b) in rules {
      if a != last.before {
        assert Rule(a, b) != last;
      } else if a !in m {
        assert forall i | 0 <= i < |init| :: init[i] != Rule(a, b);
      }
    }
  }

  /** `OrderingRules::new`: every page id that heads a rule gets its own set
      as `less_than`, and as `greater_than` the ids whose sets contain it. */
  function BuildOrderingRules(pageMap: map<nat, set<nat>>): (rules: map<nat, OrderRule>)
    ensures rules.Keys == pageMap.Keys
  {
    map p | p in pageMap :: OrderRule(pageMap[p], set q | q in pageMap && p in pageMap[q])
  }

  /** The comparator built from a list of rules. */
  function RulesFrom(rules: seq<Rule>): map<nat, OrderRule> {
    BuildOrderingRules(GroupRules(rules))
  }

  /** The records read back in terms of the rule list: an id gets one
      exactly when it heads a rule; its `less_than` holds the ids it must
      precede and its `greater_than` the ids that must precede it. */
  lemma RulesFromMeaning(rules: seq<Rule>, p: nat, q: nat)
    ensures p in RulesFrom(rules) <==> exists i | 0 <= i < |rules| :: rules[i].before == p
    ensures p in RulesFrom(rules) ==>
              && (q in RulesFrom(rules)[p].lessThan <==> Rule(p, q) in rules)
              && (q in RulesFrom(rules)[p].greaterThan <==> Rule(q, p) in rules)
  {
    if Rule(q, p) in rules {
      var i :| 0 <= i < |rules| && rules[i] == Rule(q, p);
      assert rules[i].before == q;
    }
  }

  /** The page `input_to_updates` makes for an id: it carries the rule
      record of that id when there is one. */
  function MakePage(rules: map<nat, OrderRule>, id: nat): Page {
    Page(id, if id in rules then Some(rules[id]) else None)
  }

  /** `input_to_updates` after the text has been split into rules and page
      lists. */
  function MakeUpdates(rules: seq<Rule>, pageLists: seq<seq<nat>>): (updates: seq<seq<Page>>)
    ensures |updates| == |pageLists|
    ensures forall i | 0 <= i < |updates| :: |updates[i]| == |pageLists[i]|
    ensures forall i, j | 0 <= i < |updates| && 0 <= j < |updates[i]| ::
              updates[i][j].id == pageLists[i][j] && updates[i][j] == MakePage(RulesFrom(rules), pageLists[i][j])
    ensures forall i | 0 <= i < |updates| :: BuiltFrom(rules, updates[i])
  {
    var table := RulesFrom(rules);
    seq(|pageLists|, i requires 0 <= i < |pageLists| =>
      seq(|pageLists[i]|, j requires 0 <= j < |pageLists[i]| => MakePage(table, pageLists[i][j])))
  }

  /** `PartialEq for Page`: only the id matters. */
  predicate PagesEqual(a: Page, b: Page) {
    a.id == b.id
  }

  /** `Ord for Page`: the first page's rule decides if it has one, the second
      page's rule (seen from the other side) otherwise, and pages without
      rules compare `Equal`. */
  function Cmp(a: Page, b: Page): Ordering {
    match a.orderRule
    case Some(rule) =>
      if b.id in rule.lessThan then Less
      else if b.id in rule.greaterThan then Greater
      else Equal
    case None =>
      match b.orderRule
      case Some(rule) =>
        if a.id in rule.lessThan then Greater
        else if a.id in rule.greaterThan then Less
        else Equal
      case None => Equal
  }

  /** What the rules say about two ids: `Less` when `x|y` is a rule, else
      `Greater` when `y|x` is, else `Equal`. */
  function RuleOrder(rules: seq<Rule>, x: nat, y: nat): Ordering {
    if Rule(x, y) in rules then Less
    else if Rule(y, x) in rules then Greater
    else Equal
  }

  /** The comparator on pages built from a rule list agrees with the rule
      list itself, whichever of the two pages heads a rule. */
  lemma CmpReflectsRules(rules: seq<Rule>, x: nat, y: nat)
    ensures Cmp(MakePage(RulesFrom(rules), x), MakePage(RulesFrom(rules), y)) == RuleOrder(rules, x, y)
  {
    var pageMap := GroupRules(rules);
    var table := RulesFrom(rules);
    if x in table {
      assert table[x].lessThan == pageMap[x];
      assert y in table[x].greaterThan <==> y in pageMap && x in pageMap[y];
      if Rule(y, x) in rules {
        var i :| 0 <= i < |rules| && rules[i] == Rule(y, x);
        assert rules[i].before == y;
      }
    } else if y in table {
      assert x !in table[y].greaterThan;
    }
  }

  /** Pages built from the same rules never both compare `Greater` against
      each other: `Greater` one way is `Less` the other way. */
  lemma CmpAntisymmetric(rules: seq<Rule>, x: nat, y: nat)
    ensures var a, b := MakePage(RulesFrom(rules), x), MakePage(RulesFrom(rules), y);
            Cmp(a, b) == Greater ==> Cmp(b, a) == Less
  {
    CmpReflectsRules(rules, x, y);
    CmpReflectsRules(rules, y, x);
  }

  /** Equal pages compare `Equal` unless a rule `x|x` orders a page before
      itself: equality and ordering agree on well-formed rules. */
  lemma EqualPagesCompareEqual(rules: seq<Rule>, x: nat, y: nat)
    requires PagesEqual(MakePage(RulesFrom(rules), x), MakePage(RulesFrom(rules), y))
    requires Rule(x, x) !in rules
    ensures Cmp(MakePage(RulesFrom(rules), x), MakePage(RulesFrom(rules), y)) == Equal
  {
    CmpReflectsRules(rules, x, y);
  }

  /** `Update::is_sorted` (slice `is_sorted`): every adjacent pair is in order
      in the sense `a <= b`. */
  function IsSorted(pages: seq<Page>): (sorted: bool)
    ensures sorted <==> forall i | 0 <= i < |pages| - 1 :: Cmp(pages[i], pages[i + 1]) != Greater
  {
    if |pages| < 2 then true
    else
      assert forall i | 1 <= i < |pages| :: pages[1..][i - 1] == pages[i];
      Cmp(pages[0], pages[1]) != Greater && IsSorted(pages[1..])
  }

  /** The pages of an update as the parser builds them: each looked up in
      the ordering rules of `rules`. */
  predicate BuiltFrom(rules: seq<Rule>, pages: seq<Page>) {
    forall i | 0 <= i < |pages| :: pages[i] == MakePage(RulesFrom(rules), pages[i].id)
  }

  /** Built from rules, an update is sorted exactly when no rule is broken by
      two neighbouring pages. */
  lemma IsSortedMeansNoRuleBroken(rules: seq<Rule>, pages: seq<Page>)
    requires BuiltFrom(rules, pages)
    ensures IsSorted(pages) <==> forall i | 0 <= i < |pages| - 1 :: RuleOrder(rules, pages[i].id, pages[i + 1].id) != Greater
  {
    forall i | 0 <= i < |pages| - 1
      ensures Cmp(pages[i], pages[i + 1]) == RuleOrder(rules, pages[i].id, pages[i + 1].id)
    {
      CmpReflectsRules(rules, pages[i].id, pages[i + 1].id);
    }
  }

  /** `Update::middle_num`: the id at index `len / 2`, the page with as many
      pages after it as before it (one fewer when the length is even). The
      source indexes out of bounds on an empty update, which the parser
      never produces. */
  function MiddleNum(pages: seq<Page>): (id: nat)
    requires |pages| > 0
    ensures exists k | 0 <= k < |pages| :: |pages| - 1 - k <= k <= |pages| - k && pages[k].id == id
  {
    var k := |pages| / 2;
    assert |pages| - 1 - k <= k <= |pages| - k;
    pages[k].id
  }

  /** `Greater` one way is `Less` the other way, for any two pages of
      `pages`. `CmpAntisymmetric` gives this for pages built from rules. */
  predicate Antisymmetric(pages: seq<Page>) {
    forall i, j | 0 <= i < |pages| && 0 <= j < |pages| ::
      Cmp(pages[i], pages[j]) == Greater ==> Cmp(pages[j], pages[i]) == Less
  }

  /** `insert_tail`, the step of the insertion sort that `sort_unstable`
      runs on up to 20 elements: `x`, standing after `sorted`, moves left
      past every page it compares `Less` than, and stops at the first page
      it does not. */
  function InsertTail(sorted: seq<Page>, x: Page): (r: seq<Page>)
    ensures multiset(r) == multiset(sorted) + multiset{x}
    ensures |r| == |sorted| + 1
    ensures r[|r| - 1] == x || (0 < |sorted| && r[|r| - 1] == sorted[|sorted| - 1])
    decreases |sorted|
  {
    if |sorted| == 0 || Cmp(x, sorted[|sorted| - 1]) != Less then sorted + [x]
    else
      var init := sorted[..|sorted| - 1];
      assert sorted == init + [sorted[|sorted| - 1]];
      InsertTail(init, x) + [sorted[|sorted| - 1]]
  }

  /** No page of `pages` compares `Greater` than `x` unless `x` compares
      `Less` than it. */
  predicate AntisymmetricWith(x: Page, pages: seq<Page>) {
    forall i | 0 <= i < |pages| :: Cmp(pages[i], x) == Greater ==> Cmp(x, pages[i]) == Less
  }

  /** A page in order after the last page of a sorted update can go behind
      it. */
  lemma SortedSnoc(t: seq<Page>, p: Page)
    requires IsSorted(t) && (0 < |t| ==> Cmp(t[|t| - 1], p) != Greater)
    ensures IsSorted(t + [p])
  {
  }

  /** Inserting at the tail of a sorted update keeps it sorted, provided the
      pages never compare `Greater` than `x` without `x` comparing `Less`
      back. */
  lemma {:induction false} InsertKeepsSorted(sorted: seq<Page>, x: Page)
    requires IsSorted(sorted) && AntisymmetricWith(x, sorted)
    ensures IsSorted(InsertTail(sorted, x))
    decreases |sorted|
  {
    if 0 < |sorted| {
      var last := sorted[|sorted| - 1];
      var init := sorted[..|sorted| - 1];
      if Cmp(x, last) == Less {
        assert IsSorted(init) && AntisymmetricWith(x, init) by {
          forall i | 0 <= i < |init| ensures init[i] == sorted[i] { }
        }
        InsertKeepsSorted(init, x);
        var t := InsertTail(init, x);
        assert 0 < |init| ==> Cmp(init[|init| - 1], last) != Greater;
        SortedSnoc(t, last);
      } else {
        assert Cmp(last, x) != Greater;
        SortedSnoc(sorted, x);
      }
    }
  }

  /** `sort_unstable` as Rust runs it on up to 20 elements, in both its
      pattern-defeating quicksort and its later `ipnsort`:
      `insertion_sort_shift_left`, which inserts each page in turn at the
      tail of the sorted prefix before it. */
  function Sort(pages: seq<Page>): (r: seq<Page>)
    ensures multiset(r) == multiset(pages)
    ensures |r| == |pages|
    decreases |pages|
  {
    if |pages| == 0 then []
    else
      var init := pages[..|pages| - 1];
      assert pages == init + [pages[|pages| - 1]];
      InsertTail(Sort(init), pages[|pages| - 1])
  }

  /** Sorting an antisymmetric update yields a sorted one. */
  lemma {:induction false} SortSorts(pages: seq<Page>)
    requires Antisymmetric(pages)
    ensures IsSorted(Sort(pages))
    decreases |pages|
  {
    if |pages| != 0 {
      var init := pages[..|pages| - 1];
      AntisymmetricInit(pages);
      SortSorts(init);
      var rest := Sort(init);
      AntisymmetricWithPermutation(pages, rest);
      InsertKeepsSorted(rest, pages[|pages| - 1]);
    }
  }

  lemma AntisymmetricInit(pages: seq<Page>)
    requires 0 < |pages| && Antisymmetric(pages)
    ensures Antisymmetric(pages[..|pages| - 1])
  {
    var init := pages[..|pages| - 1];
    forall i, j | 0 <= i < |init| && 0 <= j < |init|
      ensures Cmp(init[i], init[j]) == Greater ==> Cmp(init[j], init[i]) == Less
    {
      assert init[i] == pages[i] && init[j] == pages[j];
    }
  }

  /** The last page of an antisymmetric update is antisymmetric with any
      rearrangement of the others. */
  lemma AntisymmetricWithPermutation(pages: seq<Page>, rest: seq<Page>)
    requires 0 < |pages| && Antisymmetric(pages)
    requires multiset(rest) == multiset(pages[..|pages| - 1])
    ensures AntisymmetricWith(pages[|pages| - 1], rest)
  {
    var init := pages[..|pages| - 1];
    var x := pages[|pages| - 1];
    forall i | 0 <= i < |rest|
      ensures Cmp(rest[i], x) == Greater ==> Cmp(x, rest[i]) == Less
    {
      assert rest[i] in multiset(init);
      var j :| 0 <= j < |init| && init[j] == rest[i];
      assert pages[j] == rest[i];
    }
  }

  /** An update built from rules is antisymmetric, so sorting it always
      yields a sorted update. */
  lemma UpdatesAreAntisymmetric(rules: seq<Rule>, pages: seq<Page>)
    requires BuiltFrom(rules, pages)
    ensures Antisymmetric(pages)
  {
    forall i, j | 0 <= i < |pages| && 0 <= j < |pages|
      ensures Cmp(pages[i], pages[j]) == Greater ==> Cmp(pages[j], pages[i]) == Less
    {
      CmpAntisymmetric(rules, pages[i].id, pages[j].id);
    }
  }

  /** Whatever the rules, sorting an update built from them breaks no rule
      between neighbouring pages. */
  lemma SortedUpdateBreaksNoRule(rules: seq<Rule>, pages: seq<Page>)
    requires BuiltFrom(rules, pages)
    ensures IsSorted(Sort(pages))
  {
    UpdatesAreAntisymmetric(rules, pages);
    SortSorts(pages);
  }

  /** `Less` one way is `Greater` the other way, for any two pages of
      `pages`. */
  predicate LessIsReversed(pages: seq<Page>) {
    forall i, j | 0 <= i < |pages| && 0 <= j < |pages| ::
      Cmp(pages[i], pages[j]) == Less ==> Cmp(pages[j], pages[i]) == Greater
  }

  /** Pages built from rules that never order a pair both ways (`x|x`
      included) reverse `Less` into `Greater`. */
  lemma NoMutualRulesReversesLess(rules: seq<Rule>, pages: seq<Page>)
    requires BuiltFrom(rules, pages)
    requires forall k | 0 <= k < |rules| :: Rule(rules[k].after, rules[k].before) !in rules
    ensures LessIsReversed(pages)
  {
    forall i, j | 0 <= i < |pages| && 0 <= j < |pages|
      ensures Cmp(pages[i], pages[j]) == Less ==> Cmp(pages[j], pages[i]) == Greater
    {
      var x, y := pages[i].id, pages[j].id;
      CmpReflectsRules(rules, x, y);
      CmpReflectsRules(rules, y, x);
      if Rule(x, y) in rules {
        var k :| 0 <= k < |rules| && rules[k] == Rule(x, y);
        assert Rule(y, x) !in rules;
      }
    }
  }

  /** Sorting leaves an already sorted update as it is, when `Less` is
      always reversed: each page stays behind the page before it. */
  lemma {:induction false} SortKeepsSorted(pages: seq<Page>)
    requires IsSorted(pages) && LessIsReversed(pages)
    ensures Sort(pages) == pages
    decreases |pages|
  {
    if |pages| != 0 {
      var init := pages[..|pages| - 1];
      assert IsSorted(init) && LessIsReversed(init) by {
        forall i | 0 <= i < |init| ensures init[i] == pages[i] { }
      }
      SortKeepsSorted(init);
      if 0 < |init| {
        assert Cmp(init[|init| - 1], pages[|pages| - 1]) != Greater;
      }
      assert pages == init + [pages[|pages| - 1]];
    }
  }

  /** Two rules `a|b` and `b|a`: `[a, b]` counts as sorted, yet the
      insertion sort moves `b` in front of `a`, since `b` compares `Less`. */
  lemma MutualRulesReorderSortedUpdate(a: Page, b: Page)
    requires Cmp(a, b) == Less && Cmp(b, a) == Less
    ensures IsSorted([a, b]) && Sort([a, b]) == [b, a]
  {
    assert [a, b][..1] == [a];
    assert [a][..0] == [];
  }

  /** Sorting one more page inserts it at the tail of the sorted rest. */
  lemma SortSnoc(init: seq<Page>, x: Page)
    ensures Sort(init + [x]) == InsertTail(Sort(init), x)
  {
    assert (init + [x])[..|init|] == init;
  }

  /** `x` stays behind a last page it is not `Less` than, and moves past
      one it is. */
  lemma InsertTailStep(sorted: seq<Page>, x: Page)
    requires 0 < |sorted|
    ensures var last := sorted[|sorted| - 1];
            InsertTail(sorted, x) ==
              if Cmp(x, last) == Less then InsertTail(sorted[..|sorted| - 1], x) + [last] else sorted + [x]
  {
  }

  /** The insertion sort of `3,2,1` when 2 comes before 3 and 1 is
      unordered against 3: 2 moves in front of 3, and 1 stays last. */
  lemma SortThreeUnordered(p1: Page, p2: Page, p3: Page)
    requires Cmp(p2, p3) == Less && Cmp(p1, p3) == Equal
    ensures Sort([p3, p2, p1]) == [p2, p3, p1]
  {
    SortSnoc([], p3);
    assert [] + [p3] == [p3];
    assert Sort([p3]) == [p3];
    SortSnoc([p3], p2);
    assert [p3] + [p2] == [p3, p2];
    InsertTailStep([p3], p2);
    assert [p3][..0] == [];
    assert Sort([p3, p2]) == [p2, p3];
    SortSnoc([p3, p2], p1);
    assert [p3, p2] + [p1] == [p3, p2, p1];
    InsertTailStep([p2, p3], p1);
  }

  lemma ThreeUnsorted(p1: Page, p2: Page, p3: Page)
    requires Cmp(p3, p2) == Greater
    ensures !IsSorted([p3, p2, p1])
  {
  }

  /** Rules `1|2` and `2|3` without a rule between 1 and 3 leave 1 and 3
      unordered. The update `3,2,1` then sorts to `2,3,1`, middle page 3, as
      the insertion sort of `sort_unstable` leaves it. */
  lemma ExampleUnorderedPair(rules: seq<Rule>, p1: Page, p2: Page, p3: Page)
    requires Rule(1, 2) in rules && Rule(2, 3) in rules
    requires Rule(2, 1) !in rules && Rule(3, 2) !in rules && Rule(1, 3) !in rules && Rule(3, 1) !in rules
    requires p1 == MakePage(RulesFrom(rules), 1) && p2 == MakePage(RulesFrom(rules), 2)
    requires p3 == MakePage(RulesFrom(rules), 3)
    ensures !IsSorted([p3, p2, p1])
    ensures Sort([p3, p2, p1]) == [p2, p3, p1] && MiddleNum(Sort([p3, p2, p1])) == 3
  {
    CmpReflectsRules(rules, 2, 3);
    CmpReflectsRules(rules, 3, 2);
    CmpReflectsRules(rules, 1, 3);
    SortThreeUnordered(p1, p2, p3);
    ThreeUnsorted(p1, p2, p3);
  }

  /** What a strict total order asks of three pages: none comes before
      itself, two different ones are ordered one way (`Less` one way and
      `Greater` the other), and `Less` is transitive. */
  predicate OrderedTriple(p: Page, q: Page, r: Page) {
    && Cmp(p, p) != Greater
    && (p != q ==> (Cmp(p, q) == Less && Cmp(q, p) == Greater) || (Cmp(p, q) == Greater && Cmp(q, p) == Less))
    && (Cmp(p, q) == Less && Cmp(q, r) == Less ==> Cmp(p, r) == Less)
  }

  /** The rules order the pages of `pages` strictly and totally, as the
      puzzle promises for the pages of each update. */
  predicate TotallyOrdered(pages: seq<Page>) {
    forall i, j, k | 0 <= i < |pages| && 0 <= j < |pages| && 0 <= k < |pages| ::
      OrderedTriple(pages[i], pages[j], pages[k])
  }

  /** The order carries over to any list of the same pages, or fewer. */
  lemma TotallyOrderedSub(pages: seq<Page>, sub: seq<Page>)
    requires TotallyOrdered(pages) && forall p | p in sub :: p in pages
    ensures TotallyOrdered(sub)
  {
    forall i, j, k | 0 <= i < |sub| && 0 <= j < |sub| && 0 <= k < |sub|
      ensures OrderedTriple(sub[i], sub[j], sub[k])
    {
      assert sub[i] in sub && sub[j] in sub && sub[k] in sub;
      var i' :| 0 <= i' < |pages| && pages[i'] == sub[i];
      var j' :| 0 <= j' < |pages| && pages[j'] == sub[j];
      var k' :| 0 <= k' < |pages| && pages[k'] == sub[k];
      assert OrderedTriple(pages[i'], pages[j'], pages[k']);
    }
  }

  /** In a sorted update under a strict total order, every page comes
      `Less` than every different page after it. */
  lemma {:induction false} SortedChain(a: seq<Page>, i: nat, j: nat)
    requires IsSorted(a) && TotallyOrdered(a) && i < j < |a| && a[i] != a[j]
    ensures Cmp(a[i], a[j]) == Less
    decreases j
  {
    var prev := a[j - 1];
    if j - 1 == i {
      assert Cmp(a[i], a[j]) != Greater;
      assert OrderedTriple(a[i], a[j], a[j]);
    } else if prev == a[j] {
      SortedChain(a, i, j - 1);
    } else {
      assert Cmp(prev, a[j]) != Greater;
      assert OrderedTriple(prev, a[j], a[j]);
      if a[i] != prev {
        SortedChain(a, i, j - 1);
        assert OrderedTriple(a[i], prev, a[j]);
      }
    }
  }

  /** In a second sorted arrangement of the same pages, its first page
      comes `Less` than every different page after it as well. */
  lemma OtherSortedChain(a: seq<Page>, b: seq<Page>, k: nat)
    requires multiset(a) == multiset(b) && IsSorted(b) && TotallyOrdered(a)
    requires 0 < k < |b| && b[0] != b[k]
    ensures Cmp(b[0], b[k]) == Less
  {
    SamePages(a, b);
    TotallyOrderedSub(a, b);
    SortedChain(b, 0, k);
  }

  /** Two sorted arrangements of the same pages under a strict total order
      start with the same page. */
  lemma SameFirstPage(a: seq<Page>, b: seq<Page>)
    requires multiset(a) == multiset(b) && 0 < |a| && IsSorted(a) && IsSorted(b) && TotallyOrdered(a)
    ensures |b| == |a| && a[0] == b[0]
  {
    assert |a| == |multiset(a)| == |multiset(b)| == |b|;
    if a[0] != b[0] {
      assert b[0] in multiset(a) && a[0] in multiset(b);
      var m :| 0 <= m < |a| && a[m] == b[0];
      var k :| 0 <= k < |b| && b[k] == a[0];
      SortedChain(a, 0, m);
      OtherSortedChain(a, b, k);
      assert false;
    }
  }

  /** Every page of a list with the same multiset is a page of the other. */
  lemma SamePages(a: seq<Page>, b: seq<Page>)
    requires multiset(a) == multiset(b)
    ensures forall p | p in b :: p in a
  {
    forall p | p in b ensures p in a {
      assert p in multiset(b);
    }
  }

  /** Taking off a common first page leaves the same remaining pages. */
  lemma SameTails(a: seq<Page>, b: seq<Page>)
    requires multiset(a) == multiset(b) && 0 < |a| && 0 < |b| && a[0] == b[0]
    ensures multiset(a[1..]) == multiset(b[1..])
  {
    assert a == [a[0]] + a[1..] && b == [b[0]] + b[1..];
    assert multiset(a[1..]) == multiset(a) - multiset{a[0]};
    assert multiset(b[1..]) == multiset(b) - multiset{b[0]};
  }

  /** What follows the first page of a sorted update is sorted. */
  lemma SortedTail(a: seq<Page>)
    requires 0 < |a| && IsSorted(a)
    ensures IsSorted(a[1..])
  {
  }

  lemma TotallyOrderedTail(a: seq<Page>)
    requires 0 < |a| && TotallyOrdered(a)
    ensures TotallyOrdered(a[1..])
  {
    var tail := a[1..];
    forall i, j, k | 0 <= i < |tail| && 0 <= j < |tail| && 0 <= k < |tail|
      ensures OrderedTriple(tail[i], tail[j], tail[k])
    {
      assert OrderedTriple(a[i + 1], a[j + 1], a[k + 1]);
    }
  }

  /** Under a strict total order, an update has only one sorted
      arrangement. */
  lemma {:induction false} SortedArrangementUnique(a: seq<Page>, b: seq<Page>)
    requires multiset(a) == multiset(b) && IsSorted(a) && IsSorted(b) && TotallyOrdered(a)
    ensures a == b
    decreases |a|
  {
    if |a| == 0 {
      assert |multiset(b)| == 0;
    } else {
      SameFirstPage(a, b);
      SameTails(a, b);
      SortedTail(a);
      SortedTail(b);
      TotallyOrderedTail(a);
      SortedArrangementUnique(a[1..], b[1..]);
      assert a == [a[0]] + a[1..] && b == [b[0]] + b[1..];
    }
  }

  /** Under a strict total order on an update's pages, every sort that
      returns a sorted permutation returns what `Sort` returns. So above 20
      pages, where `sort_unstable` switches algorithm, the middle page is
      still the one `Sort` gives. */
  lemma AnySortAgrees(pages: seq<Page>, sorted: seq<Page>)
    requires multiset(sorted) == multiset(pages) && IsSorted(sorted) && TotallyOrdered(pages)
    ensures Sort(pages) == sorted
  {
    forall i, j | 0 <= i < |pages| && 0 <= j < |pages|
      ensures Cmp(pages[i], pages[j]) == Greater ==> Cmp(pages[j], pages[i]) == Less
    {
      assert OrderedTriple(pages[i], pages[j], pages[j]);
    }
    SortSorts(pages);
    var s := Sort(pages);
    forall p | p in s ensures p in pages {
      assert p in multiset(s);
    }
    TotallyOrderedSub(pages, s);
    SortedArrangementUnique(s, sorted);
  }

  predicate NonEmptyUpdates(updates: seq<seq<Page>>) {
    forall i | 0 <= i < |updates| :: |updates[i]| > 0
  }

  lemma NonEmptyTail(updates: seq<seq<Page>>)
    requires |updates| > 0 && NonEmptyUpdates(updates)
    ensures NonEmptyUpdates(updates[1..])
  {
    forall i | 0 <= i < |updates| - 1 ensures |updates[1..][i]| > 0 {
      assert updates[1..][i] == updates[i + 1];
    }
  }

  /** `sum_middle_numbers_sorted`: the middle ids of the updates that are
      already sorted. */
  function SumMiddleSorted(updates: seq<seq<Page>>): (sum: nat)
    requires NonEmptyUpdates(updates)
    ensures (forall i | 0 <= i < |updates| :: !IsSorted(updates[i])) ==> sum == 0
  {
    if |updates| == 0 then 0
    else
      NonEmptyTail(updates);
      (if IsSorted(updates[0]) then MiddleNum(updates[0]) else 0) + SumMiddleSorted(updates[1..])
  }

  /** `sum_middle_numbers_unsorted`: the middle ids, after sorting, of the
      updates that are not already sorted. */
  function SumMiddleUnsorted(updates: seq<seq<Page>>): (sum: nat)
    requires NonEmptyUpdates(updates)
    ensures (forall i | 0 <= i < |updates| :: IsSorted(updates[i])) ==> sum == 0
  {
    if |updates| == 0 then 0
    else
      NonEmptyTail(updates);
      (if !IsSorted(updates[0]) then MiddleNum(Sort(updates[0])) else 0) + SumMiddleUnsorted(updates[1..])
  }

  /** The sorted sum of a single update: its middle id when it is already
      sorted, and nothing otherwise. */
  lemma SumMiddleSortedOne(u: seq<Page>)
    requires 0 < |u|
    ensures SumMiddleSorted([u]) == if IsSorted(u) then MiddleNum(u) else 0
  {
  }

  /** The sorted sum adds over concatenated lists of updates, so with
      `SumMiddleSortedOne` it is fixed on every list: each update counts on
      its own. */
  lemma {:induction false} SumMiddleSortedAppend(a: seq<seq<Page>>, b: seq<seq<Page>>)
    requires NonEmptyUpdates(a) && NonEmptyUpdates(b)
    ensures NonEmptyUpdates(a + b)
    ensures SumMiddleSorted(a + b) == SumMiddleSorted(a) + SumMiddleSorted(b)
  {
    if |a| == 0 {
      assert a + b == b;
    } else {
      NonEmptyTail(a);
      assert (a + b)[1..] == a[1..] + b;
      SumMiddleSortedAppend(a[1..], b);
    }
  }

  /** The unsorted sum of a single update: the middle id after sorting when
      it is not yet sorted, and nothing otherwise. */
  lemma SumMiddleUnsortedOne(u: seq<Page>)
    requires 0 < |u|
    ensures SumMiddleUnsorted([u]) == if !IsSorted(u) then MiddleNum(Sort(u)) else 0
  {
  }

  /** The unsorted sum adds over concatenated lists of updates. */
  lemma {:induction false} SumMiddleUnsortedAppend(a: seq<seq<Page>>, b: seq<seq<Page>>)
    requires NonEmptyUpdates(a) && NonEmptyUpdates(b)
    ensures NonEmptyUpdates(a + b)
    ensures SumMiddleUnsorted(a + b) == SumMiddleUnsorted(a) + SumMiddleUnsorted(b)
  {
    if |a| == 0 {
      assert a + b == b;
    } else {
      NonEmptyTail(a);
      assert (a + b)[1..] == a[1..] + b;
      SumMiddleUnsortedAppend(a[1..], b);
    }
  }

  /** The middle id of every update once sorted, sorted or not. */
  function SumMiddleAfterSorting(updates: seq<seq<Page>>): nat
    requires NonEmptyUpdates(updates)
  {
    if |updates| == 0 then 0
    else
      NonEmptyTail(updates);
      MiddleNum(Sort(updates[0])) + SumMiddleAfterSorting(updates[1..])
  }

  /** The two sums split the updates between them: together they add the
      middle of every update after sorting, each update counted once. This
      needs every update to reverse `Less`, for otherwise sorting may move
      the pages of an update that is already sorted
      (`MutualRulesReorderSortedUpdate`). */
  lemma {:induction false} SumsPartitionUpdates(updates: seq<seq<Page>>)
    requires NonEmptyUpdates(updates)
    requires forall i | 0 <= i < |updates| :: LessIsReversed(updates[i])
    ensures SumMiddleSorted(updates) + SumMiddleUnsorted(updates) == SumMiddleAfterSorting(updates)
  {
    if |updates| != 0 {
      NonEmptyTail(updates);
      if IsSorted(updates[0]) {
        SortKeepsSorted(updates[0]);
      }
      assert forall i | 0 <= i < |updates| - 1 :: updates[1..][i] == updates[i + 1];
      SumsPartitionUpdates(updates[1..]);
    }
  }
  // ---------------------------------------------------------------------------
  // Reading the text (`parse`)
  // ---------------------------------------------------------------------------

  /** `single_order_rule`: `u32`, `'|'`, `u32`. */
  function SingleOrderRule(s: string): (r: Option<(Rule, string)>)
    ensures r.Some? ==> |r.value.1| < |s| && r.value.0.before <= U32Max && r.value.0.after <= U32Max
    ensures r.Some? ==> 0 < |s| && IsDigit(s[0])
  {
    match ParseUnsigned(s, U32Max)
    case None => None
    case Some((a, s1)) =>
      match Tag(s1, "|")
      case None => None
      case Some(s2) =>
        match ParseUnsigned(s2, U32Max)
        case None => None
        case Some((b, s3)) => Some((Rule(a, b), s3))
  }

  /** `terminated(single_order_rule, char('\n'))`. */
  function RuleLine(s: string): (r: Option<(Rule, string)>)
    ensures r.Some? ==> |r.value.1| < |s| && r.value.0.before <= U32Max && r.value.0.after <= U32Max
    ensures r.Some? ==> 0 < |s| && IsDigit(s[0])
  {
    match SingleOrderRule(s)
    case None => None
    case Some((rule, s1)) =>
      match Tag(s1, "\n")
      case None => None
      case Some(s2) => Some((rule, s2))
  }

  /** The loop of `many1` after its first rule line: take rule lines until
      one fails, and stop in front of it. */
  function MoreRules(s: string): (r: (seq<Rule>, string))
    ensures |r.1| <= |s|
    ensures forall i | 0 <= i < |r.0| :: r.0[i].before <= U32Max && r.0[i].after <= U32Max
    decreases |s|
  {
    match RuleLine(s)
    case None => ([], s)
    case Some((rule, rest)) =>
      var (more, after) := MoreRules(rest);
      ([rule] + more, after)
  }

  /** `order_rules` before the grouping: one or more rule lines. */
  function OrderRules(s: string): (r: Option<(seq<Rule>, string)>)
    ensures r.Some? <==> RuleLine(s).Some?
    ensures r.Some? ==> 0 < |r.value.0| && |r.value.1| < |s|
    ensures r.Some? ==> forall i | 0 <= i < |r.value.0| :: r.value.0[i].before <= U32Max && r.value.0[i].after <= U32Max
  {
    match RuleLine(s)
    case None => None
    case Some((rule, rest)) =>
      var (more, after) := MoreRules(rest);
      Some(([rule] + more, after))
  }

  /** The loop of `separated_list1(char(','), u32)` after its first page:
      while a comma and a number follow, take the number; otherwise stop in
      front of the comma. */
  function MorePages(s: string): (r: (seq<nat>, string))
    ensures |r.1| <= |s|
    ensures forall i | 0 <= i < |r.0| :: r.0[i] <= U32Max
    decreases |s|
  {
    match Tag(s, ",")
    case None => ([], s)
    case Some(s1) =>
      match ParseUnsigned(s1, U32Max)
      case None => ([], s)
      case Some((page, s2)) =>
        var (more, after) := MorePages(s2);
        ([page] + more, after)
  }

  /** `update_pages`: one or more `u32` separated by commas. */
  function UpdatePages(s: string): (r: Option<(seq<nat>, string)>)
    ensures r.Some? <==> ParseUnsigned(s, U32Max).Some?
    ensures r.Some? ==> 0 < |r.value.0| && |r.value.1| < |s|
    ensures r.Some? ==> forall i | 0 <= i < |r.value.0| :: r.value.0[i] <= U32Max
  {
    match ParseUnsigned(s, U32Max)
    case None => None
    case Some((page, s1)) =>
      var (more, after) := MorePages(s1);
      Some(([page] + more, after))
  }

  /** `terminated(update_pages, char('\n'))`. */
  function UpdateLine(s: string): (r: Option<(seq<nat>, string)>)
    ensures r.Some? ==> 0 < |r.value.0| && |r.value.1| < |s|
    ensures r.Some? ==> 0 < |s| && IsDigit(s[0])
    ensures r.Some? ==> forall i | 0 <= i < |r.value.0| :: r.value.0[i] <= U32Max
  {
    match UpdatePages(s)
    case None => None
    case Some((pages, s1)) =>
      match Tag(s1, "\n")
      case None => None
      case Some(s2) => Some((pages, s2))
  }

  /** Page lists as the parser returns them: none empty, every id a `u32`. */
  predicate ParsedPageLists(lists: seq<seq<nat>>) {
    forall i | 0 <= i < |lists| :: 0 < |lists[i]| && forall j | 0 <= j < |lists[i]| :: lists[i][j] <= U32Max
  }

  /** The loop of `many1` after its first update line. */
  function MoreUpdates(s: string): (r: (seq<seq<nat>>, string))
    ensures |r.1| <= |s|
    ensures ParsedPageLists(r.0)
    decreases |s|
  {
    match UpdateLine(s)
    case None => ([], s)
    case Some((pages, rest)) =>
      var (more, after) := MoreUpdates(rest);
      ([pages] + more, after)
  }

  /** `updates`: one or more update lines. */
  function Updates(s: string): (r: Option<(seq<seq<nat>>, string)>)
    ensures r.Some? <==> UpdateLine(s).Some?
    ensures r.Some? ==> 0 < |r.value.0| && ParsedPageLists(r.value.0)
  {
    match UpdateLine(s)
    case None => None
    case Some((pages, rest)) =>
      var (more, after) := MoreUpdates(rest);
      Some(([pages] + more, after))
  }

  /** `separated_pair(order_rules, char('\n'), updates)`; what is left after
      the updates is ignored. */
  function ParseRulesAndUpdates(s: string): (r: Option<(seq<Rule>, seq<seq<nat>>)>)
    ensures r.Some? ==> 0 < |r.value.0| && 0 < |r.value.1| && ParsedPageLists(r.value.1)
  {
    match OrderRules(s)
    case None => None
    case Some((rules, s1)) =>
      match Tag(s1, "\n")
      case None => None
      case Some(s2) =>
        match Updates(s2)
        case None => None
        case Some((lists, _)) => Some((rules, lists))
  }

  /** `parse::input_to_updates`; `None` stands for the `unwrap` panic. Every
      update it returns is non-empty, so `middle_num` can index it. */
  function InputToUpdates(s: string): (r: Option<seq<seq<Page>>>)
    ensures r.Some? <==> ParseRulesAndUpdates(s).Some?
    ensures r.Some? ==> 0 < |r.value| && NonEmptyUpdates(r.value)
    ensures r.Some? ==> var (rules, lists) := ParseRulesAndUpdates(s).value;
              |r.value| == |lists| && forall i | 0 <= i < |r.value| :: BuiltFrom(rules, r.value[i])
  {
    match ParseRulesAndUpdates(s)
    case None => None
    case Some((rules, lists)) =>
      var updates := MakeUpdates(rules, lists);
      assert NonEmptyUpdates(updates) by {
        forall i | 0 <= i < |updates| ensures |updates[i]| > 0 {
          assert |updates[i]| == |lists[i]|;
        }
      }
      Some(updates)
  }

  // ---------------------------------------------------------------------------
  // Writing the text back
  // ---------------------------------------------------------------------------

  /** A rule `a|b` followed by `rest`. */
  function ShowRuleThen(rule: Rule, rest: string): string {
    ShowNat(rule.before) + ("|" + (ShowNat(rule.after) + rest))
  }

  /** Rule lines, each ending in a line feed, followed by `rest`. */
  function ShowRulesThen(rules: seq<Rule>, rest: string): string {
    if |rules| == 0 then rest else ShowRuleThen(rules[0], "\n" + ShowRulesThen(rules[1..], rest))
  }

  /** The pages after the first, each behind a comma, followed by `rest`. */
  function ShowPagesTail(pages: seq<nat>, rest: string): string {
    if |pages| == 0 then rest else "," + (ShowNat(pages[0]) + ShowPagesTail(pages[1..], rest))
  }

  /** Update lines, each ending in a line feed, followed by `rest`. */
  function ShowUpdatesThen(lists: seq<seq<nat>>, rest: string): string
    requires forall i | 0 <= i < |lists| :: 0 < |lists[i]|
  {
    if |lists| == 0 then rest
    else ShowNat(lists[0][0]) + ShowPagesTail(lists[0][1..], "\n" + ShowUpdatesThen(lists[1..], rest))
  }

  /** A puzzle input: the rule lines, a blank line, the update lines. */
  function ShowInput(rules: seq<Rule>, lists: seq<seq<nat>>): string
    requires forall i | 0 <= i < |lists| :: 0 < |lists[i]|
  {
    ShowRulesThen(rules, "\n" + ShowUpdatesThen(lists, ""))
  }

  predicate RulesFit(rules: seq<Rule>) {
    forall i | 0 <= i < |rules| :: rules[i].before <= U32Max && rules[i].after <= U32Max
  }

  /** A written rule line is read back, leaving what follows its line feed. */
  lemma RuleLineShow(rule: Rule, rest: string)
    requires rule.before <= U32Max && rule.after <= U32Max
    ensures RuleLine(ShowRuleThen(rule, "\n" + rest)) == Some((rule, rest))
  {
    SingleOrderRuleShow(rule, "\n" + rest);
    TagAppend("\n", rest);
  }

  lemma SingleOrderRuleShow(rule: Rule, rest: string)
    requires rule.before <= U32Max && rule.after <= U32Max && NoDigitFirst(rest)
    ensures SingleOrderRule(ShowRuleThen(rule, rest)) == Some((rule, rest))
  {
    ParseUnsignedShowNat(rule.before, U32Max, "|" + (ShowNat(rule.after) + rest));
    TagAppend("|", ShowNat(rule.after) + rest);
    ParseUnsignedShowNat(rule.after, U32Max, rest);
  }

  /** Written rule lines are read back, and the loop stops at text that
      does not start with a digit. */
  lemma {:induction false} MoreRulesShow(rules: seq<Rule>, rest: string)
    requires RulesFit(rules) && NoDigitFirst(rest)
    ensures MoreRules(ShowRulesThen(rules, rest)) == (rules, rest)
  {
    if |rules| == 0 {
      assert RuleLine(rest).None?;
    } else {
      var tail := ShowRulesThen(rules[1..], rest);
      RuleLineShow(rules[0], tail);
      MoreRulesStep(ShowRulesThen(rules, rest), rules[0], tail);
      MoreRulesShow(rules[1..], rest);
      ConsTail(rules);
    }
  }

  /** A rule line in front adds its rule to what the loop reads after it. */
  lemma MoreRulesStep(s: string, rule: Rule, rest: string)
    requires RuleLine(s) == Some((rule, rest))
    ensures MoreRules(s) == ([rule] + MoreRules(rest).0, MoreRules(rest).1)
    ensures OrderRules(s) == Some(([rule] + MoreRules(rest).0, MoreRules(rest).1))
  {
  }

  predicate NoDigitFirst(s: string) {
    |s| == 0 || !IsDigit(s[0])
  }

  lemma OrderRulesShow(rules: seq<Rule>, rest: string)
    requires 0 < |rules| && RulesFit(rules) && NoDigitFirst(rest)
    ensures OrderRules(ShowRulesThen(rules, rest)) == Some((rules, rest))
  {
    var tail := ShowRulesThen(rules[1..], rest);
    RuleLineShow(rules[0], tail);
    MoreRulesStep(ShowRulesThen(rules, rest), rules[0], tail);
    MoreRulesShow(rules[1..], rest);
    ConsTail(rules);
  }

  /** A comma followed by a number is taken as one more page. */
  lemma MorePagesStep(page: nat, tail: string)
    requires page <= U32Max && NoDigitFirst(tail)
    ensures MorePages("," + (ShowNat(page) + tail)) == ([page] + MorePages(tail).0, MorePages(tail).1)
  {
    TagAppend(",", ShowNat(page) + tail);
    ParseUnsignedShowNat(page, U32Max, tail);
  }

  /** Written comma-separated pages are read back; the loop stops at text
      that starts with neither a comma nor a digit. */
  lemma {:induction false} MorePagesShow(pages: seq<nat>, rest: string)
    requires forall i | 0 <= i < |pages| :: pages[i] <= U32Max
    requires |rest| == 0 || (rest[0] != ',' && !IsDigit(rest[0]))
    ensures MorePages(ShowPagesTail(pages, rest)) == (pages, rest)
  {
    if |pages| == 0 {
      MorePagesEnd(rest);
    } else {
      var tail := ShowPagesTail(pages[1..], rest);
      PagesTailNoDigitFirst(pages[1..], rest);
      MorePagesStep(pages[0], tail);
      MorePagesShow(pages[1..], rest);
      ConsTail(pages);
    }
  }

  /** Text that does not start with a comma adds no page. */
  lemma MorePagesEnd(rest: string)
    requires |rest| == 0 || rest[0] != ','
    ensures MorePages(rest) == ([], rest)
  {
    if 0 < |rest| {
      assert rest[..1][0] != ',';
    }
    assert Tag(rest, ",").None?;
  }

  lemma ConsTail<T>(xs: seq<T>)
    requires 0 < |xs|
    ensures [xs[0]] + xs[1..] == xs
  {
  }

  lemma PagesTailNoDigitFirst(pages: seq<nat>, rest: string)
    requires NoDigitFirst(rest)
    ensures NoDigitFirst(ShowPagesTail(pages, rest))
  {
    if |pages| != 0 { assert ShowPagesTail(pages, rest)[0] == ','; }
  }

  /** A written update line is read back, leaving what follows its line feed. */
  lemma UpdateLineShow(pages: seq<nat>, rest: string)
    requires 0 < |pages| && forall i | 0 <= i < |pages| :: pages[i] <= U32Max
    ensures UpdateLine(ShowNat(pages[0]) + ShowPagesTail(pages[1..], "\n" + rest)) == Some((pages, rest))
  {
    UpdatePagesShow(pages, "\n" + rest);
    TagAppend("\n", rest);
  }

  /** Written pages are read back, up to text that starts with neither a
      comma nor a digit. */
  lemma UpdatePagesShow(pages: seq<nat>, rest: string)
    requires 0 < |pages| && forall i | 0 <= i < |pages| :: pages[i] <= U32Max
    requires |rest| == 0 || (rest[0] != ',' && !IsDigit(rest[0]))
    ensures UpdatePages(ShowNat(pages[0]) + ShowPagesTail(pages[1..], rest)) == Some((pages, rest))
  {
    var tail := ShowPagesTail(pages[1..], rest);
    PagesTailNoDigitFirst(pages[1..], rest);
    ParseUnsignedShowNat(pages[0], U32Max, tail);
    UpdatePagesStep(ShowNat(pages[0]) + tail, pages[0], tail);
    MorePagesShow(pages[1..], rest);
    ConsTail(pages);
  }

  lemma UpdatePagesStep(s: string, page: nat, tail: string)
    requires ParseUnsigned(s, U32Max) == Some((page, tail))
    ensures UpdatePages(s) == Some(([page] + MorePages(tail).0, MorePages(tail).1))
  {
  }

  lemma UpdatesShow(lists: seq<seq<nat>>, rest: string)
    requires 0 < |lists| && ParsedPageLists(lists) && NoDigitFirst(rest)
    ensures Updates(ShowUpdatesThen(lists, rest)) == Some((lists, rest))
  {
    var tail := ShowUpdatesThen(lists[1..], rest);
    UpdateLineShow(lists[0], tail);
    MoreUpdatesStep(ShowUpdatesThen(lists, rest), lists[0], tail);
    assert UpdateLine(rest).None?;
    MoreUpdatesBefore(lists[1..], rest);
    ConsTail(lists);
  }

  /** A written puzzle input reads back to its rules and page lists, and so
      to the pages `MakeUpdates` builds from them. */
  lemma InputToUpdatesShow(rules: seq<Rule>, lists: seq<seq<nat>>)
    requires 0 < |rules| && RulesFit(rules)
    requires 0 < |lists| && ParsedPageLists(lists)
    ensures ParseRulesAndUpdates(ShowInput(rules, lists)) == Some((rules, lists))
    ensures InputToUpdates(ShowInput(rules, lists)) == Some(MakeUpdates(rules, lists))
  {
    var updatesText := ShowUpdatesThen(lists, "");
    OrderRulesShow(rules, "\n" + updatesText);
    TagAppend("\n", updatesText);
    UpdatesShow(lists, "");
  }

  /** An update on the last line without a line feed after it is dropped:
      its `terminated` fails, so `many1` stops in front of it. */
  lemma UnterminatedLastUpdateDropped(lists: seq<seq<nat>>, last: seq<nat>)
    requires ParsedPageLists(lists) && 0 < |last| && forall i | 0 <= i < |last| :: last[i] <= U32Max
    ensures var lastLine := ShowNat(last[0]) + ShowPagesTail(last[1..], "");
            MoreUpdates(ShowUpdatesThen(lists, lastLine)) == (lists, lastLine)
  {
    var lastLine := ShowNat(last[0]) + ShowPagesTail(last[1..], "");
    UnterminatedLineFails(last);
    MoreUpdatesBefore(lists, lastLine);
  }

  lemma UnterminatedLineFails(pages: seq<nat>)
    requires 0 < |pages| && forall i | 0 <= i < |pages| :: pages[i] <= U32Max
    ensures UpdateLine(ShowNat(pages[0]) + ShowPagesTail(pages[1..], "")).None?
  {
    UpdatePagesShow(pages, "");
  }

  /** Written update lines are read back, whatever follows, as long as the
      loop stops there. */
  lemma {:induction false} MoreUpdatesBefore(lists: seq<seq<nat>>, rest: string)
    requires ParsedPageLists(lists) && UpdateLine(rest).None?
    ensures MoreUpdates(ShowUpdatesThen(lists, rest)) == (lists, rest)
  {
    if |lists| != 0 {
      var tail := ShowUpdatesThen(lists[1..], rest);
      UpdateLineShow(lists[0], tail);
      MoreUpdatesStep(ShowUpdatesThen(lists, rest), lists[0], tail);
      MoreUpdatesBefore(lists[1..], rest);
      ConsTail(lists);
    }
  }

  /** An update line in front adds its pages to what the loop reads after it. */
  lemma MoreUpdatesStep(s: string, pages: seq<nat>, rest: string)
    requires UpdateLine(s) == Some((pages, rest))
    ensures MoreUpdates(s) == ([pages] + MoreUpdates(rest).0, MoreUpdates(rest).1)
    ensures Updates(s) == Some(([pages] + MoreUpdates(rest).0, MoreUpdates(rest).1))
  {
  }
}
