/** Print queue: page-ordering rules `x|y`, updates as comma-separated page
    lists, the sum of the middle pages of the correctly ordered updates, and
    the reordering of an update by how many of its pages must precede each
    page. */
module Y2024Day05 {
  import opened Wrappers
  import opened Text
  import opened SeqUtil

  /** For each page `x`, the pages that `x|y` rules say must come after it. */
  type Rules = map<nat, set<nat>>

  type Update = seq<nat>

  /** `str::parse::<u32>`. */
  function ParseU32(s: String): Option<nat> {
    ParseBelow(s, 0x1_0000_0000)
  }

  // Rules

  /** The rule on one line `x|y`: the numbers before and after the first `|`;
      None when there is no `|` or either number does not parse. */
  function ParseRule(line: String): Option<(nat, nat)> {
    match Find(line, "|")
    case None => None
    case Some(mid) =>
      match (ParseU32(line[..mid]), ParseU32(line[mid + 1..]))
      case (Some(x), Some(y)) => Some((x, y))
      case _ => None
  }

  /** The set of `x` gains `y`; a new `x` gets the set `{y}`. */
  function AddRule(m: Rules, x: nat, y: nat): (r: Rules)
    ensures r.Keys == m.Keys + {x}
    ensures r[x] == (if x in m then m[x] else {}) + {y}
    ensures forall z :: z in m && z != x ==> r[z] == m[z]
  {
    if x in m then m[x := m[x] + {y}] else m[x := {y}]
  }

  /** What `rules` builds from `acc` and the remaining lines: it stops at the
      first line without `|`, and a number that does not parse aborts it. */
  function RulesFrom(acc: Rules, lines: seq<String>): Option<Rules>
    decreases |lines|
  {
    if lines == [] then Some(acc)
    else match Find(lines[0], "|")
      case None => Some(acc)
      case Some(_) =>
        match ParseRule(lines[0])
        case Some((x, y)) => RulesFrom(AddRule(acc, x, y), lines[1..])
        case None => None
  }

  /** `rules`: read `x|y` lines until the first line without `|`. */
  method ParseRules(input: String) returns (r: Option<Rules>)
    ensures r == RulesFrom(map[], Lines(input))
  {
    var lines := Lines(input);
    var m: Rules := map[];
    var i := 0;
    while i < |lines|
      invariant i <= |lines|
      invariant RulesFrom(m, lines[i..]) == RulesFrom(map[], lines)
    {
      var line := lines[i];
      assert lines[i..][0] == line && lines[i..][1..] == lines[i + 1..];
      var mid := Find(line, "|");
      if mid.None? {
        break;
      }
      var x := ParseU32(line[..mid.value]);
      var y := ParseU32(line[mid.value + 1..]);
      if x.None? || y.None? {
        return None;
      }
      if x.value in m {
        m := m[x.value := m[x.value] + {y.value}];
      } else {
        m := m[x.value := {y.value}];
      }
      i := i + 1;
    }
    return Some(m);
  }

  /** How many lines from the start hold a `|`: the rule section. */
  function RuleLines(lines: seq<String>): (n: nat)
    ensures n <= |lines|
  {
    if lines == [] || Find(lines[0], "|").None? then 0 else 1 + RuleLines(lines[1..])
  }

  /** Some line of the rule section reads `x|y`. */
  predicate Ruled(lines: seq<String>, x: nat, y: nat) {
    exists k :: 0 <= k < RuleLines(lines) && ParseRule(lines[k]) == Some((x, y))
  }

  /** The rule section after a leading rule line. */
  lemma RuledStep(lines: seq<String>, x: nat, y: nat)
    requires lines != [] && Find(lines[0], "|").Some?
    ensures RuleLines(lines) == 1 + RuleLines(lines[1..])
    ensures Ruled(lines, x, y) <==> ParseRule(lines[0]) == Some((x, y)) || Ruled(lines[1..], x, y)
  {
    var rest := lines[1..];
    if Ruled(rest, x, y) {
      var k :| 0 <= k < RuleLines(rest) && ParseRule(rest[k]) == Some((x, y));
      assert ParseRule(lines[k + 1]) == Some((x, y));
    }
    if Ruled(lines, x, y) {
      var k :| 0 <= k < RuleLines(lines) && ParseRule(lines[k]) == Some((x, y));
      if k > 0 {
        assert ParseRule(rest[k - 1]) == Some((x, y));
      }
    }
  }

  /** `rules` succeeds exactly when every line of the rule section parses. */
  lemma {:induction false} RulesFromSome(acc: Rules, lines: seq<String>)
    ensures RulesFrom(acc, lines).Some? <==> forall k :: 0 <= k < RuleLines(lines) ==> ParseRule(lines[k]).Some?
    decreases |lines|
  {
    if lines != [] && Find(lines[0], "|").Some? {
      var rest := lines[1..];
      assert RuleLines(lines) == 1 + RuleLines(rest);
      assert forall k :: 0 <= k < RuleLines(rest) ==> rest[k] == lines[k + 1];
      if ParseRule(lines[0]).Some? {
        var (x, y) := ParseRule(lines[0]).value;
        RulesFromSome(AddRule(acc, x, y), rest);
      }
    }
  }

  /** When `rules` succeeds it maps each `x` to the set of all `y` of its
      `x|y` lines. */
  lemma {:induction false} RulesFromMeaning(acc: Rules, lines: seq<String>)
    requires RulesFrom(acc, lines).Some?
    ensures var r := RulesFrom(acc, lines).value;
      forall x, y :: (x in r && y in r[x]) <==> (x in acc && y in acc[x]) || Ruled(lines, x, y)
    decreases |lines|
  {
    if lines != [] && Find(lines[0], "|").Some? {
      var (x0, y0) := ParseRule(lines[0]).value;
      var acc' := AddRule(acc, x0, y0);
      RulesFromMeaning(acc', lines[1..]);
      forall x: nat, y: nat ensures Ruled(lines, x, y) <==> ParseRule(lines[0]) == Some((x, y)) || Ruled(lines[1..], x, y) {
        RuledStep(lines, x, y);
      }
    }
  }

  // Updates

  /** One update line: every comma-separated number. */
  function ParseUpdate(line: String): Option<Update> {
    MapAll(Split(line, ','), ParseU32)
  }

  /** The updates `updates` collects from the remaining lines: lines without
      a comma are skipped, and a number that does not parse aborts it. */
  function UpdatesFrom(lines: seq<String>): Option<seq<Update>>
    decreases |lines|
  {
    if lines == [] then Some([])
    else if Find(lines[0], ",").None? then UpdatesFrom(lines[1..])
    else match (ParseUpdate(lines[0]), UpdatesFrom(lines[1..]))
      case (Some(u), Some(rest)) => Some([u] + rest)
      case _ => None
  }

  /** `us` in front of a result that may have failed. */
  function Prefixed(us: seq<Update>, r: Option<seq<Update>>): Option<seq<Update>> {
    match r
    case Some(rest) => Some(us + rest)
    case None => None
  }

  /** The inner loop of `updates`: parse the comma-separated numbers of one
      line, aborting on the first that does not parse. */
  method ParsePages(line: String) returns (r: Option<Update>)
    ensures r == ParseUpdate(line)
  {
    var parts := Split(line, ',');
    var pages: Update := [];
    for j := 0 to |parts|
      invariant |pages| == j
      invariant forall t :: 0 <= t < j ==> ParseU32(parts[t]) == Some(pages[t])
    {
      var num := ParseU32(parts[j]);
      if num.None? {
        return None;
      }
      pages := pages + [num.value];
    }
    var parsed := MapAll(parts, ParseU32);
    assert parsed.Some?;
    assert parsed.value == pages;
    return Some(pages);
  }

  /** `updates`: for every line with a comma, the list of its numbers. */
  method ParseUpdates(input: String) returns (r: Option<seq<Update>>)
    ensures r == UpdatesFrom(Lines(input))
  {
    var lines := Lines(input);
    var updates: seq<Update> := [];
    assert lines[0..] == lines;
    assert Prefixed([], UpdatesFrom(lines)) == UpdatesFrom(lines) by {
      if UpdatesFrom(lines).Some? {
        assert [] + UpdatesFrom(lines).value == UpdatesFrom(lines).value;
      }
    }
    for i := 0 to |lines|
      invariant UpdatesFrom(lines) == Prefixed(updates, UpdatesFrom(lines[i..]))
    {
      var line := lines[i];
      assert lines[i..][0] == line && lines[i..][1..] == lines[i + 1..];
      var comma := Find(line, ",");
      if comma.None? {
        continue;
      }
      var parsed := ParsePages(line);
      if parsed.None? {
        return None;
      }
      var pages := parsed.value;
      assert UpdatesFrom(lines[i..]) == Prefixed([pages], UpdatesFrom(lines[i + 1..]));
      PrefixedStep(updates, pages, UpdatesFrom(lines[i + 1..]));
      updates := updates + [pages];
    }
    assert lines[|lines|..] == [];
    assert updates + [] == updates;
    return Some(updates);
  }

  lemma PrefixedStep(us: seq<Update>, u: Update, r: Option<seq<Update>>)
    ensures Prefixed(us, Prefixed([u], r)) == Prefixed(us + [u], r)
  {
    if r.Some? {
      AppendAssoc(us, [u], r.value);
    }
  }

  /** The lines that hold a comma, in order. */
  function CommaLines(lines: seq<String>): seq<String> {
    if lines == [] then []
    else (if Find(lines[0], ",").Some? then [lines[0]] else []) + CommaLines(lines[1..])
  }

  /** `updates` parses exactly the lines with a comma, in order. */
  lemma {:induction false} UpdatesFromMeaning(lines: seq<String>)
    ensures UpdatesFrom(lines) == MapAll(CommaLines(lines), ParseUpdate)
    decreases |lines|
  {
    if lines != [] {
      var rest := lines[1..];
      UpdatesFromMeaning(rest);
      if Find(lines[0], ",").Some? {
        assert CommaLines(lines) == [lines[0]] + CommaLines(rest);
      } else {
        assert CommaLines(lines) == CommaLines(rest);
      }
    }
  }

  lemma {:induction false} CommaLinesHaveComma(lines: seq<String>)
    ensures forall k :: 0 <= k < |CommaLines(lines)| ==> ',' in CommaLines(lines)[k]
    decreases |lines|
  {
    if lines != [] {
      CommaLinesHaveComma(lines[1..]);
      var line := lines[0];
      if Find(line, ",").Some? {
        var i := Find(line, ",").value;
        assert line[i..i + 1][0] == line[i];
        assert CommaLines(lines) == [line] + CommaLines(lines[1..]);
      }
    }
  }

  /** A line with a comma splits into at least two pieces. */
  lemma SplitAtComma(line: String)
    requires ',' in line
    ensures |Split(line, ',')| >= 2
  {
  }

  /** Every update `updates` collects has at least two pages. */
  lemma UpdatesTwoPages(lines: seq<String>)
    requires UpdatesFrom(lines).Some?
    ensures forall k :: 0 <= k < |UpdatesFrom(lines).value| ==> |UpdatesFrom(lines).value[k]| >= 2
  {
    UpdatesFromMeaning(lines);
    CommaLinesHaveComma(lines);
    var commas := CommaLines(lines);
    forall k | 0 <= k < |UpdatesFrom(lines).value| ensures |UpdatesFrom(lines).value[k]| >= 2 {
      SplitAtComma(commas[k]);
    }
  }

  // Checking an update

  /** `check_following`: the fold over the pages after `page`; a step fails
      when `page` has no rules, otherwise it checks the page is in them. */
  function CheckFollowing(rules: Rules, page: nat, following: seq<nat>): bool {
    if following == [] then true
    else
      var allValid := CheckFollowing(rules, page, following[..|following| - 1]);
      if page !in rules then false
      else allValid && following[|following| - 1] in rules[page]
  }

  /** The fold accepts exactly when every following page is in the rules of
      `page`; a page without rules passes only when nothing follows it. */
  lemma {:induction false} CheckFollowingIff(rules: Rules, page: nat, following: seq<nat>)
    ensures CheckFollowing(rules, page, following) <==>
      following == [] || (page in rules && forall f :: f in following ==> f in rules[page])
    decreases |following|
  {
    if following != [] {
      var init := following[..|following| - 1];
      CheckFollowingIff(rules, page, init);
      assert following == init + [following[|following| - 1]];
    }
  }

  /** Every page is followed only by pages its rules allow. */
  predicate ValidUpdate(rules: Rules, update: Update) {
    forall i :: 0 <= i < |update| ==> CheckFollowing(rules, update[i], update[i + 1..])
  }

  /** `check_updates`: check each page against the pages after it, and stop
      at the first failure. */
  method CheckUpdates(rules: Rules, update: Update) returns (valid: bool)
    ensures valid == ValidUpdate(rules, update)
  {
    for i := 0 to |update|
      invariant forall t :: 0 <= t < i ==> CheckFollowing(rules, update[t], update[t + 1..])
    {
      if !CheckFollowing(rules, update[i], update[i + 1..]) {
        return false;
      }
    }
    return true;
  }

  /** Each page has rules, and they allow every later page. */
  predicate PagesOrdered(rules: Rules, update: Update) {
    forall i, j :: 0 <= i < j < |update| ==> update[i] in rules && update[j] in rules[update[i]]
  }

  lemma ValidUpdateOrdered(rules: Rules, update: Update)
    requires ValidUpdate(rules, update)
    ensures PagesOrdered(rules, update)
  {
    forall i, j | 0 <= i < j < |update| ensures update[i] in rules && update[j] in rules[update[i]] {
      CheckFollowingIff(rules, update[i], update[i + 1..]);
      assert update[i + 1..][j - i - 1] == update[j];
    }
  }

  lemma OrderedValidUpdate(rules: Rules, update: Update)
    requires PagesOrdered(rules, update)
    ensures ValidUpdate(rules, update)
  {
    forall i | 0 <= i < |update| ensures CheckFollowing(rules, update[i], update[i + 1..]) {
      var rest := update[i + 1..];
      CheckFollowingIff(rules, update[i], rest);
      if rest != [] {
        assert update[i] in rules && rest[0] in rules[update[i]] by {
          assert rest[0] == update[i + 1];
        }
        forall f | f in rest ensures f in rules[update[i]] {
          var k :| 0 <= k < |rest| && rest[k] == f;
          assert rest[k] == update[i + 1 + k];
        }
      }
    }
  }

  /** An update is valid exactly when each page has rules allowing every
      later page; updates of fewer than two pages are valid. */
  lemma ValidUpdateIff(rules: Rules, update: Update)
    ensures ValidUpdate(rules, update) <==> PagesOrdered(rules, update)
    ensures |update| < 2 ==> ValidUpdate(rules, update)
  {
    if ValidUpdate(rules, update) {
      ValidUpdateOrdered(rules, update);
    }
    if PagesOrdered(rules, update) {
      OrderedValidUpdate(rules, update);
    }
  }

  // Middle pages

  /** `update[(update.len() - 1) / 2]`. */
  function Middle(update: Update): nat
    requires |update| >= 1
  {
    update[(|update| - 1) / 2]
  }

  /** The middle page has as many pages after it as before it, or one more
      when the length is even. */
  lemma MiddleCentre(update: Update)
    requires |update| >= 1
    ensures var m := (|update| - 1) / 2;
      Middle(update) == update[m] && |update[m + 1..]| - |update[..m]| == (if |update| % 2 == 0 then 1 else 0)
  {
  }

  /** `middlepage_sums`: the middle pages of the valid updates. An empty
      update would underflow `len() - 1`. */
  function MiddlePageSums(rules: Rules, updates: seq<Update>): nat
    requires forall k :: 0 <= k < |updates| ==> |updates[k]| >= 1
  {
    if updates == [] then 0
    else
      var u := updates[|updates| - 1];
      MiddlePageSums(rules, updates[..|updates| - 1]) + (if ValidUpdate(rules, u) then Middle(u) else 0)
  }

  /** The valid updates, in order. */
  function ValidOnly(rules: Rules, updates: seq<Update>): seq<Update> {
    if updates == [] then []
    else
      var u := updates[|updates| - 1];
      ValidOnly(rules, updates[..|updates| - 1]) + (if ValidUpdate(rules, u) then [u] else [])
  }

  /** The filter keeps exactly the valid updates of the input. */
  lemma {:induction false} ValidOnlyIff(rules: Rules, updates: seq<Update>)
    ensures forall x :: x in ValidOnly(rules, updates) <==> x in updates && ValidUpdate(rules, x)
    decreases |updates|
  {
    if updates != [] {
      var init, u := updates[..|updates| - 1], updates[|updates| - 1];
      ValidOnlyIff(rules, init);
      assert updates == init + [u];
    }
  }

  /** The middle pages of all updates in the list. */
  function Middles(updates: seq<Update>): nat
    requires forall k :: 0 <= k < |updates| ==> |updates[k]| >= 1
  {
    if updates == [] then 0 else Middles(updates[..|updates| - 1]) + Middle(updates[|updates| - 1])
  }

  lemma {:induction false} MiddlesAppend(a: seq<Update>, b: seq<Update>)
    requires forall k :: 0 <= k < |a| ==> |a[k]| >= 1
    requires forall k :: 0 <= k < |b| ==> |b[k]| >= 1
    ensures Middles(a + b) == Middles(a) + Middles(b)
    decreases |b|
  {
    if b == [] {
      assert a + b == a;
    } else {
      assert (a + b)[..|a + b| - 1] == a + b[..|b| - 1];
      MiddlesAppend(a, b[..|b| - 1]);
    }
  }

  /** No update is empty. */
  predicate NonEmptyUpdates(updates: seq<Update>) {
    forall k :: 0 <= k < |updates| ==> |updates[k]| >= 1
  }

  /** Appending one update, or nothing, adds its middle page, or nothing. */
  lemma MiddlesStep(valid: seq<Update>, u: Update, ok: bool)
    requires forall k :: 0 <= k < |valid| ==> |valid[k]| >= 1
    requires |u| >= 1
    ensures NonEmptyUpdates(valid + (if ok then [u] else []))
    ensures Middles(valid + (if ok then [u] else [])) == Middles(valid) + (if ok then Middle(u) else 0)
  {
    if ok {
      assert (valid + [u])[..|valid|] == valid;
    } else {
      assert valid + [] == valid;
    }
  }

  /** The valid updates of non-empty updates are non-empty. */
  lemma ValidOnlyNonEmpty(rules: Rules, updates: seq<Update>)
    requires forall k :: 0 <= k < |updates| ==> |updates[k]| >= 1
    ensures forall k :: 0 <= k < |ValidOnly(rules, updates)| ==> |ValidOnly(rules, updates)[k]| >= 1
  {
    var r := ValidOnly(rules, updates);
    ValidOnlyIff(rules, updates);
    forall k | 0 <= k < |r| ensures |r[k]| >= 1 {
      assert r[k] in r;
      var i :| 0 <= i < |updates| && updates[i] == r[k];
    }
  }

  /** Invalid updates contribute nothing: the sum is the middle pages of the
      valid updates alone. */
  lemma {:induction false} MiddlePageSumsValid(rules: Rules, updates: seq<Update>)
    requires forall k :: 0 <= k < |updates| ==> |updates[k]| >= 1
    ensures forall k :: 0 <= k < |ValidOnly(rules, updates)| ==> |ValidOnly(rules, updates)[k]| >= 1
    ensures MiddlePageSums(rules, updates) == Middles(ValidOnly(rules, updates))
    decreases |updates|
  {
    ValidOnlyNonEmpty(rules, updates);
    if updates != [] {
      var init, u := updates[..|updates| - 1], updates[|updates| - 1];
      MiddlePageSumsValid(rules, init);
      var ok := ValidUpdate(rules, u);
      MiddlePageSumsSnoc(rules, updates);
      MiddlesStep(ValidOnly(rules, init), u, ok);
    }
  }

  /** One more update adds its middle page to both sides when it is valid. */
  lemma MiddlePageSumsSnoc(rules: Rules, updates: seq<Update>)
    requires updates != []
    requires forall k :: 0 <= k < |updates| ==> |updates[k]| >= 1
    ensures var init, u := updates[..|updates| - 1], updates[|updates| - 1];
      && MiddlePageSums(rules, updates) == MiddlePageSums(rules, init) + (if ValidUpdate(rules, u) then Middle(u) else 0)
      && ValidOnly(rules, updates) == ValidOnly(rules, init) + (if ValidUpdate(rules, u) then [u] else [])
  {
  }

  // Correcting an update

  /** How many pages of the update have a rule putting `page` after them. */
  function Priority(rules: Rules, update: Update, page: nat): (n: nat)
    ensures n <= |update|
  {
    if update == [] then 0
    else
      var p := update[|update| - 1];
      Priority(rules, update[..|update| - 1], page) + (if p in rules && page in rules[p] then 1 else 0)
  }

  /** Each page with its priority, in update order. */
  function Priorities(rules: Rules, update: Update): (r: seq<(nat, nat)>)
    ensures |r| == |update|
    ensures forall k :: 0 <= k < |r| ==> r[k] == (update[k], Priority(rules, update, update[k]))
  {
    seq(|update|, k requires 0 <= k < |update| => (update[k], Priority(rules, update, update[k])))
  }

  function PriorityKey(entry: (nat, nat)): int {
    entry.1
  }

  /** The pages of the entries, in order. */
  function Pages(entries: seq<(nat, nat)>): (r: Update)
    ensures |r| == |entries|
    ensures forall k :: 0 <= k < |r| ==> r[k] == entries[k].0
  {
    seq(|entries|, k requires 0 <= k < |entries| => entries[k].0)
  }

  /** The entries sorted stably by priority. */
  function ByPriority(rules: Rules, update: Update): seq<(nat, nat)> {
    SortByKey(Priorities(rules, update), PriorityKey)
  }

  /** `correct_update`: sort the pages stably by priority. */
  function CorrectUpdate(rules: Rules, update: Update): Update {
    Pages(ByPriority(rules, update))
  }

  lemma PagesAppend(a: seq<(nat, nat)>, b: seq<(nat, nat)>)
    ensures Pages(a + b) == Pages(a) + Pages(b)
  {
  }

  lemma PagesSnoc(front: seq<(nat, nat)>, x: (nat, nat))
    ensures Pages(front + [x]) == Pages(front) + [x.0]
  {
    PagesAppend(front, [x]);
    assert Pages([x]) == [x.0];
  }

  /** Cutting out entry `i` cuts out one copy of its page. */
  lemma PagesRemove(b: seq<(nat, nat)>, i: nat)
    requires i < |b|
    ensures multiset(Pages(b)) == multiset(Pages(b[..i] + b[i + 1..])) + multiset{b[i].0}
  {
    RemoveAt(b, i);
    var front, back := b[..i], b[i + 1..];
    assert Pages([b[i]]) == [b[i].0];
    PagesAppend(front + [b[i]], back);
    PagesAppend(front, [b[i]]);
    PagesAppend(front, back);
  }

  lemma {:induction false} PagesMultiset(a: seq<(nat, nat)>, b: seq<(nat, nat)>)
    requires multiset(a) == multiset(b)
    ensures multiset(Pages(a)) == multiset(Pages(b))
    decreases |a|
  {
    if a != [] {
      var front, x := a[..|a| - 1], a[|a| - 1];
      assert a == front + [x];
      assert multiset(a) == multiset(front) + multiset{x};
      assert x in multiset(b);
      var i :| 0 <= i < |b| && b[i] == x;
      var rest := b[..i] + b[i + 1..];
      RemoveAt(b, i);
      assert multiset(front) == multiset(rest);
      PagesMultiset(front, rest);
      PagesRemove(b, i);
      PagesSnoc(front, x);
      assert multiset(Pages(a)) == multiset(Pages(front)) + multiset{x.0};
    } else {
      assert |b| == |multiset(b)| == 0;
    }
  }

  /** The corrected update holds the same pages, each as often. */
  lemma CorrectUpdatePermutation(rules: Rules, update: Update)
    ensures multiset(CorrectUpdate(rules, update)) == multiset(update)
  {
    var entries := Priorities(rules, update);
    SortMultiset(entries, PriorityKey);
    PagesMultiset(SortByKey(entries, PriorityKey), entries);
    assert Pages(entries) == update;
  }

  /** Every entry of the sorted list is a page with its own priority. */
  lemma SortedEntries(rules: Rules, update: Update)
    ensures forall k :: 0 <= k < |ByPriority(rules, update)| ==>
      ByPriority(rules, update)[k].1 == Priority(rules, update, ByPriority(rules, update)[k].0)
  {
    var entries := Priorities(rules, update);
    var sorted := SortByKey(entries, PriorityKey);
    SortMultiset(entries, PriorityKey);
    forall k | 0 <= k < |sorted| ensures sorted[k].1 == Priority(rules, update, sorted[k].0) {
      assert sorted[k] in multiset(entries);
      var i :| 0 <= i < |entries| && entries[i] == sorted[k];
    }
  }

  /** The corrected update lists its pages by non-decreasing priority. */
  lemma CorrectUpdateOrdered(rules: Rules, update: Update)
    ensures var r := CorrectUpdate(rules, update);
      forall i, j :: 0 <= i < j < |r| ==> Priority(rules, update, r[i]) <= Priority(rules, update, r[j])
  {
    var sorted := SortByKey(Priorities(rules, update), PriorityKey);
    SortSorted(Priorities(rules, update), PriorityKey);
    SortedEntries(rules, update);
    var r := CorrectUpdate(rules, update);
    forall i, j | 0 <= i < j < |r| ensures Priority(rules, update, r[i]) <= Priority(rules, update, r[j]) {
      assert r[i] == sorted[i].0 && r[j] == sorted[j].0;
      assert sorted[i].1 == Priority(rules, update, sorted[i].0);
      assert sorted[j].1 == Priority(rules, update, sorted[j].0);
      assert PriorityKey(sorted[i]) <= PriorityKey(sorted[j]);
    }
  }

  /** The pages of a given priority, in order. */
  function WithPriority(rules: Rules, update: Update, pages: Update, k: nat): Update {
    if pages == [] then []
    else (if Priority(rules, update, pages[0]) == k then [pages[0]] else []) + WithPriority(rules, update, pages[1..], k)
  }

  /** On entries that carry their own priority, the key class of `k` holds
      the pages of priority `k`. */
  lemma {:induction false} KeyClassPages(rules: Rules, update: Update, entries: seq<(nat, nat)>, k: nat)
    requires forall t :: 0 <= t < |entries| ==> entries[t].1 == Priority(rules, update, entries[t].0)
    ensures Pages(KeyClass(entries, PriorityKey, k)) == WithPriority(rules, update, Pages(entries), k)
    decreases |entries|
  {
    if entries != [] {
      KeyClassPages(rules, update, entries[1..], k);
      assert Pages(entries)[1..] == Pages(entries[1..]);
      var head := if PriorityKey(entries[0]) == k then [entries[0]] else [];
      assert Pages(head + KeyClass(entries[1..], PriorityKey, k)) == Pages(head) + Pages(KeyClass(entries[1..], PriorityKey, k));
    }
  }

  /** The sort is stable: the pages of each priority keep their order in the
      update. */
  lemma CorrectUpdateStable(rules: Rules, update: Update, k: nat)
    ensures WithPriority(rules, update, CorrectUpdate(rules, update), k) == WithPriority(rules, update, update, k)
  {
    var entries := Priorities(rules, update);
    var sorted := ByPriority(rules, update);
    SortStable(entries, PriorityKey, k);
    SortedEntries(rules, update);
    KeyClassPages(rules, update, sorted, k);
    KeyClassPages(rules, update, entries, k);
    assert Pages(entries) == update;
  }
}
