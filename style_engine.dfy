/**
  The engine Box hands its style props to (convertStylePropsToCSSProperties
  in get-style-props.ts). Its body is not part of this model; this module
  defines the behaviour the Box doc-comment promises for it, over abstract
  tables:

  - an alias table: alias prop -> ordered physical targets, each with a rank;
  - a token callback `resolve(value, prop)`, supplied by Box;
  - an ordered breakpoint list, narrowest first (xs, sm, md, lg, xl).

  Compilation runs in three stages: every prop is expanded into candidates,
  the most specific candidate per physical prop wins, and each winner is
  emitted either as one binding or as per-breakpoint intermediates plus a
  `var()` fallback chain.
*/
module StyleEngine {
  import opened Wrappers

  /** A style prop's value: one value, or one value per breakpoint name. */
  datatype StyleValue = Single(value: string) | Responsive(byBreakpoint: map<string, string>)

  /** A props object: its entries in `Object.entries` order. */
  type Entries = seq<(string, StyleValue)>

  /** A JavaScript object holds one value per key. */
  ghost predicate KeysUnique(entries: Entries) {
    forall e1, e2 :: e1 in entries && e2 in entries && e1.0 == e2.0 ==> e1 == e2
  }

  // ---------------------------------------------------------------------
  // Alias expansion and specificity

  /** How specifically a physical prop was asked for: written out directly,
      or reached through an alias target of the given rank (a larger rank is
      a more specific alias, e.g. paddingBlock above padding). */
  datatype Specificity = Direct | ViaAlias(rank: nat)

  /** `a` beats `b`: a direct prop beats every alias, and a higher-ranked
      alias target beats a lower-ranked one. */
  predicate Outranks(a: Specificity, b: Specificity) {
    match a
    case Direct => b.ViaAlias?
    case ViaAlias(x) => b.ViaAlias? && x > b.rank
  }

  /** One physical prop an alias expands to. */
  datatype Target = Target(physical: string, rank: nat)

  /** alias prop -> the physical props it stands for, in order. */
  type AliasTable = map<string, seq<Target>>

  /** No (physical, rank) target is shared by two aliases, so two aliases
      aiming at the same physical prop never tie. */
  ghost predicate WellFormed(aliases: AliasTable) {
    forall a1, a2, t :: a1 in aliases && a2 in aliases && t in aliases[a1] && t in aliases[a2] ==> a1 == a2
  }

  /** A proposal, made by the prop `source`, to set `physical` to `value`. */
  datatype Candidate = Candidate(source: string, physical: string, value: StyleValue, specificity: Specificity)

  /** An alias proposes its value, unchanged, for each of its targets; any
      other prop proposes itself, directly. */
  function Expand(aliases: AliasTable, prop: string, value: StyleValue): seq<Candidate> {
    if prop in aliases then ExpandTargets(prop, aliases[prop], value) else [Candidate(prop, prop, value, Direct)]
  }

  function ExpandTargets(alias: string, targets: seq<Target>, value: StyleValue): (cs: seq<Candidate>)
    ensures |cs| == |targets|
  {
    if targets == [] then []
    else [Candidate(alias, targets[0].physical, value, ViaAlias(targets[0].rank))] + ExpandTargets(alias, targets[1..], value)
  }

  /** `c` is proposed by an entry of the props object. */
  ghost predicate IsCandidate(aliases: AliasTable, entries: Entries, c: Candidate) {
    (c.source, c.value) in entries && c in Expand(aliases, c.source, c.value)
  }

  lemma {:induction false} ExpandTargetsMembership(alias: string, targets: seq<Target>, value: StyleValue, c: Candidate)
    ensures c in ExpandTargets(alias, targets, value) <==>
      c.source == alias && c.value == value && c.specificity.ViaAlias? && Target(c.physical, c.specificity.rank) in targets
  {
    if targets != [] {
      ExpandTargetsMembership(alias, targets[1..], value, c);
      assert targets == [targets[0]] + targets[1..];
    }
  }

  /** What an expansion proposes: the prop's own value, for each alias target
      at that target's rank, or for the prop itself directly. */
  lemma {:induction false} ExpandMembership(aliases: AliasTable, prop: string, value: StyleValue, c: Candidate)
    ensures c in Expand(aliases, prop, value) <==>
      && c.source == prop
      && c.value == value
      && (if prop in aliases
          then c.specificity.ViaAlias? && Target(c.physical, c.specificity.rank) in aliases[prop]
          else c.physical == prop && c.specificity == Direct)
  {
    if prop in aliases {
      ExpandTargetsMembership(prop, aliases[prop], value, c);
    }
  }

  // ---------------------------------------------------------------------
  // Precedence merge

  /** Keep `c` for its physical prop unless what is there already outranks
      or ties with it. */
  function Offer(acc: map<string, Candidate>, c: Candidate): map<string, Candidate> {
    if c.physical !in acc || Outranks(c.specificity, acc[c.physical].specificity) then acc[c.physical := c] else acc
  }

  function OfferAll(acc: map<string, Candidate>, cs: seq<Candidate>): (r: map<string, Candidate>)
    requires forall p :: p in acc ==> acc[p].physical == p
    ensures forall p :: p in r ==> r[p].physical == p && (r[p] in cs || (p in acc && r[p] == acc[p]))
    ensures forall p :: p in acc ==> p in r && !Outranks(acc[p].specificity, r[p].specificity)
    ensures forall c :: c in cs ==> c.physical in r && !Outranks(c.specificity, r[c.physical].specificity)
    decreases |cs|
  {
    if cs == [] then acc else OfferAll(Offer(acc, cs[0]), cs[1..])
  }

  /** The winning candidate per physical prop, folding over the entries in
      order. */
  function Winners(aliases: AliasTable, entries: Entries): map<string, Candidate> {
    if entries == [] then map[]
    else
      var last := entries[|entries| - 1];
      OfferAll(Winners(aliases, entries[..|entries| - 1]), Expand(aliases, last.0, last.1))
  }

  /** Every physical prop some entry proposes gets a value; that value is
      proposed by an entry for that prop, and nothing proposed for the prop
      outranks it. */
  lemma {:induction false} WinnersSelectMostSpecific(aliases: AliasTable, entries: Entries)
    ensures forall p :: p in Winners(aliases, entries) ==>
      Winners(aliases, entries)[p].physical == p && IsCandidate(aliases, entries, Winners(aliases, entries)[p])
    ensures forall e, c :: e in entries && c in Expand(aliases, e.0, e.1) ==>
      c.physical in Winners(aliases, entries) && !Outranks(c.specificity, Winners(aliases, entries)[c.physical].specificity)
  {
    if entries != [] {
      var init, last := entries[..|entries| - 1], entries[|entries| - 1];
      WinnersSelectMostSpecific(aliases, init);
      assert entries == init + [last];
      WinnersStep(aliases, entries, init, last, Winners(aliases, init), Winners(aliases, entries));
    }
  }

  /** "Does not outrank" is transitive: specificities are totally preordered. */
  lemma NotOutrankedTransitive(a: Specificity, b: Specificity, c: Specificity)
    requires !Outranks(a, b) && !Outranks(b, c)
    ensures !Outranks(a, c)
  {
  }

  /** The induction step of Winners: adding the last entry's candidates to
      the winners of the earlier entries. */
  lemma {:induction false} WinnersStep(aliases: AliasTable, entries: Entries, init: Entries, last: (string, StyleValue),
                    acc: map<string, Candidate>, w: map<string, Candidate>)
    requires entries == init + [last]
    requires forall p :: p in acc ==> acc[p].physical == p && IsCandidate(aliases, init, acc[p])
    requires forall e, c :: e in init && c in Expand(aliases, e.0, e.1) ==>
      c.physical in acc && !Outranks(c.specificity, acc[c.physical].specificity)
    requires w == OfferAll(acc, Expand(aliases, last.0, last.1))
    ensures forall p :: p in w ==> w[p].physical == p && IsCandidate(aliases, entries, w[p])
    ensures forall e, c :: e in entries && c in Expand(aliases, e.0, e.1) ==>
      c.physical in w && !Outranks(c.specificity, w[c.physical].specificity)
  {
    forall p | p in w ensures w[p].physical == p && IsCandidate(aliases, entries, w[p]) {
      if w[p] in Expand(aliases, last.0, last.1) {
        ExpandMembership(aliases, last.0, last.1, w[p]);
      } else {
        assert IsCandidate(aliases, init, acc[p]);
      }
    }
    forall e, c | e in entries && c in Expand(aliases, e.0, e.1)
      ensures c.physical in w && !Outranks(c.specificity, w[c.physical].specificity)
    {
      if e != last {
        assert e in init;
        var p := c.physical;
        NotOutrankedTransitive(c.specificity, acc[p].specificity, w[p].specificity);
      }
    }
  }

  /** Under a well-formed table, two candidates for one physical prop that
      neither outranks the other are the same candidate. */
  lemma {:induction false} NoTies(aliases: AliasTable, entries: Entries, c1: Candidate, c2: Candidate)
    requires WellFormed(aliases) && KeysUnique(entries)
    requires IsCandidate(aliases, entries, c1) && IsCandidate(aliases, entries, c2)
    requires c1.physical == c2.physical
    requires !Outranks(c1.specificity, c2.specificity) && !Outranks(c2.specificity, c1.specificity)
    ensures c1 == c2
  {
    ExpandMembership(aliases, c1.source, c1.value, c1);
    ExpandMembership(aliases, c2.source, c2.value, c2);
    if c1.source in aliases && c2.source in aliases {
      assert Target(c1.physical, c1.specificity.rank) in aliases[c2.source];
    }
  }

  /** Most specific wins: a candidate that no other candidate for its
      physical prop outranks is the one that prop ends up with. */
  lemma {:induction false} MostSpecificWins(aliases: AliasTable, entries: Entries, c: Candidate)
    requires WellFormed(aliases) && KeysUnique(entries)
    requires IsCandidate(aliases, entries, c)
    requires forall d :: IsCandidate(aliases, entries, d) && d.physical == c.physical ==> !Outranks(d.specificity, c.specificity)
    ensures c.physical in Winners(aliases, entries) && Winners(aliases, entries)[c.physical] == c
  {
    var w := Winners(aliases, entries);
    WinnersSelectMostSpecific(aliases, entries);
    assert c.physical in w;
    NoTies(aliases, entries, c, w[c.physical]);
  }

  /** A physical prop written out explicitly always keeps its own value,
      whatever aliases also aim at it. */
  lemma {:induction false} ExplicitPropWins(aliases: AliasTable, entries: Entries, prop: string, value: StyleValue)
    requires KeysUnique(entries)
    requires (prop, value) in entries && prop !in aliases
    ensures prop in Winners(aliases, entries)
    ensures Winners(aliases, entries)[prop] == Candidate(prop, prop, value, Direct)
  {
    var w := Winners(aliases, entries);
    var c := Candidate(prop, prop, value, Direct);
    WinnersSelectMostSpecific(aliases, entries);
    assert c in Expand(aliases, prop, value);
    ExpandMembership(aliases, w[prop].source, w[prop].value, w[prop]);
  }

  /** Two props objects with the same entries agree on the winner of every
      physical prop either of them sets. */
  lemma {:induction false} SameEntriesSameWinner(aliases: AliasTable, e1: Entries, e2: Entries, p: string)
    requires WellFormed(aliases) && KeysUnique(e1)
    requires forall e :: e in e1 <==> e in e2
    requires p in Winners(aliases, e1)
    ensures p in Winners(aliases, e2) && Winners(aliases, e2)[p] == Winners(aliases, e1)[p]
  {
    var w1, w2 := Winners(aliases, e1), Winners(aliases, e2);
    WinnersSelectMostSpecific(aliases, e1);
    var c := w1[p];
    assert IsCandidate(aliases, e1, c);
    assert (c.source, c.value) in e2;
    WinnersSelectMostSpecific(aliases, e2);
    assert p in w2;
    var d := w2[p];
    assert IsCandidate(aliases, e2, d);
    assert (d.source, d.value) in e1;
    NoTies(aliases, e1, c, d);
  }

  /** The winners do not depend on the order the props were written in. */
  lemma {:induction false} WinnersOrderIndependent(aliases: AliasTable, e1: Entries, e2: Entries)
    requires WellFormed(aliases) && KeysUnique(e1)
    requires multiset(e1) == multiset(e2)
    ensures Winners(aliases, e1) == Winners(aliases, e2)
  {
    var w1, w2 := Winners(aliases, e1), Winners(aliases, e2);
    forall e ensures e in e1 <==> e in e2 {
      assert e in e1 <==> e in multiset(e1);
      assert e in e2 <==> e in multiset(e2);
    }
    assert KeysUnique(e2);
    forall p | p in w1 ensures p in w2 && w2[p] == w1[p] {
      SameEntriesSameWinner(aliases, e1, e2, p);
    }
    forall p | p in w2 ensures p in w1 {
      SameEntriesSameWinner(aliases, e2, e1, p);
    }
    MapsAgree(w1, w2);
  }

  /** Winners is pinned down by the candidates: given every candidate the
      props propose, and a choice per physical prop of one that none of them
      outranks, that choice is the winners map. */
  lemma {:induction false} WinnersCharacterised(aliases: AliasTable, entries: Entries,
                                                proposals: seq<Candidate>, chosen: map<string, Candidate>)
    requires WellFormed(aliases) && KeysUnique(entries)
    requires forall d :: IsCandidate(aliases, entries, d) <==> d in proposals
    requires forall d :: d in proposals ==> d.physical in chosen
    requires forall p :: p in chosen ==> chosen[p].physical == p && chosen[p] in proposals
    requires forall p, d :: p in chosen && d in proposals && d.physical == p ==> !Outranks(d.specificity, chosen[p].specificity)
    ensures Winners(aliases, entries) == chosen
  {
    var w := Winners(aliases, entries);
    WinnersSelectMostSpecific(aliases, entries);
    forall p | p in chosen ensures p in w && w[p] == chosen[p] {
      MostSpecificWins(aliases, entries, chosen[p]);
    }
    forall p | p in w ensures p in chosen {
      assert w[p] in proposals;
    }
    MapsAgree(w, chosen);
  }

  lemma MapsAgree<K, V>(m1: map<K, V>, m2: map<K, V>)
    requires forall k :: k in m1 ==> k in m2 && m2[k] == m1[k]
    requires forall k :: k in m2 ==> k in m1
    ensures m1 == m2
  {
  }

  // ---------------------------------------------------------------------
  // Responsive compilation

  predicate Distinct(s: seq<string>) {
    forall i, j :: 0 <= i < j < |s| ==> s[i] != s[j]
  }

  /** An index of `x` in `s`, unique when `s` is Distinct: a breakpoint's
      place in the configured list, narrowest first. */
  ghost function Position(s: seq<string>, x: string): (k: nat)
    requires x in s
    ensures k < |s| && s[k] == x
  {
    var k :| 0 <= k < |s| && s[k] == x; k
  }

  lemma {:induction false} PositionInPrefix(s: seq<string>, n: nat, x: string)
    requires Distinct(s) && n <= |s| && x in s[..n]
    ensures Position(s, x) < n && Position(s[..n], x) == Position(s, x)
  {
    var k, k' := Position(s, x), Position(s[..n], x);
    assert s[k'] == x;
  }

  /** The breakpoints the configured list knows and `byBreakpoint` supplies,
      widest first. `breakpoints` lists the configured names narrowest
      first; a supplied name the list does not know is dropped. */
  function WidestFirst(breakpoints: seq<string>, byBreakpoint: map<string, string>): seq<string> {
    if breakpoints == [] then []
    else
      var widest := breakpoints[|breakpoints| - 1];
      (if widest in byBreakpoint then [widest] else []) + WidestFirst(breakpoints[..|breakpoints| - 1], byBreakpoint)
  }

  /** Every name of `chain` is in `breakpoints`, and each comes after (is
      wider than) every name that follows it in `chain`. */
  ghost predicate WiderFirst(breakpoints: seq<string>, chain: seq<string>) {
    && (forall x :: x in chain ==> x in breakpoints)
    && forall i, j :: 0 <= i < j < |chain| ==> Position(breakpoints, chain[j]) < Position(breakpoints, chain[i])
  }

  /** WidestFirst lists exactly the supplied, configured breakpoints, each
      once, strictly from wider to narrower. */
  lemma {:induction false} WidestFirstOrder(breakpoints: seq<string>, byBreakpoint: map<string, string>)
    requires Distinct(breakpoints)
    ensures forall bp :: bp in WidestFirst(breakpoints, byBreakpoint) <==> bp in breakpoints && bp in byBreakpoint
    ensures WiderFirst(breakpoints, WidestFirst(breakpoints, byBreakpoint))
  {
    if breakpoints != [] {
      var n := |breakpoints| - 1;
      var init, widest := breakpoints[..n], breakpoints[n];
      assert breakpoints == init + [widest];
      WidestFirstOrder(init, byBreakpoint);
      ExtendWiderFirst(breakpoints, WidestFirst(init, byBreakpoint), widest in byBreakpoint);
    }
  }

  /** Putting the widest configured breakpoint in front of a wider-first
      chain over the narrower ones keeps it wider-first. */
  lemma {:induction false} ExtendWiderFirst(breakpoints: seq<string>, rest: seq<string>, addWidest: bool)
    requires Distinct(breakpoints) && breakpoints != []
    requires WiderFirst(breakpoints[..|breakpoints| - 1], rest)
    ensures WiderFirst(breakpoints, (if addWidest then [breakpoints[|breakpoints| - 1]] else []) + rest)
  {
    var n := |breakpoints| - 1;
    var init, widest := breakpoints[..n], breakpoints[n];
    forall x | x in rest ensures x in breakpoints && Position(breakpoints, x) < n && Position(init, x) == Position(breakpoints, x) {
      PositionInPrefix(breakpoints, n, x);
    }
    var k := Position(breakpoints, widest);
    assert breakpoints[k] == breakpoints[n];
    RankedChain(breakpoints, init, rest, widest, n, addWidest);
  }

  /** ExtendWiderFirst once the positions are known: those of `rest` below
      `n`, that of `widest` equal to `n`. */
  lemma {:induction false} RankedChain(breakpoints: seq<string>, init: seq<string>, rest: seq<string>,
                                       widest: string, n: nat, addWidest: bool)
    requires widest in breakpoints && Position(breakpoints, widest) == n
    requires WiderFirst(init, rest)
    requires forall x :: x in rest ==> x in breakpoints && Position(breakpoints, x) < n && Position(init, x) == Position(breakpoints, x)
    ensures WiderFirst(breakpoints, (if addWidest then [widest] else []) + rest)
  {
    if addWidest {
      PrependRanked(breakpoints, init, rest, widest, n);
    } else {
      RestRanked(breakpoints, init, rest);
      assert [] + rest == rest;
    }
  }

  lemma {:induction false} PrependRanked(breakpoints: seq<string>, init: seq<string>, rest: seq<string>,
                                         widest: string, n: nat)
    requires widest in breakpoints && Position(breakpoints, widest) == n
    requires WiderFirst(init, rest)
    requires forall x :: x in rest ==> x in breakpoints && Position(breakpoints, x) < n && Position(init, x) == Position(breakpoints, x)
    ensures WiderFirst(breakpoints, [widest] + rest)
  {
    var r := [widest] + rest;
    forall i, j | 0 <= i < j < |r| ensures Position(breakpoints, r[j]) < Position(breakpoints, r[i]) {
      assert r[j] == rest[j - 1] && rest[j - 1] in rest;
      if 0 < i {
        assert r[i] == rest[i - 1] && rest[i - 1] in rest;
      }
    }
  }

  lemma {:induction false} RestRanked(breakpoints: seq<string>, init: seq<string>, rest: seq<string>)
    requires WiderFirst(init, rest)
    requires forall x :: x in rest ==> x in breakpoints && Position(init, x) == Position(breakpoints, x)
    ensures WiderFirst(breakpoints, rest)
  {
    forall i, j | 0 <= i < j < |rest| ensures Position(breakpoints, rest[j]) < Position(breakpoints, rest[i]) {
      assert rest[i] in rest && rest[j] in rest;
    }
  }

  /** The breakpoint whose value is in force when exactly the first `n`
      configured breakpoints match (min-width queries, mobile first): the
      widest of them that is supplied; None when none is. */
  function InForce(breakpoints: seq<string>, byBreakpoint: map<string, string>, n: nat): Option<string>
    requires n <= |breakpoints|
  {
    if n == 0 then None
    else if breakpoints[n - 1] in byBreakpoint then Some(breakpoints[n - 1])
    else InForce(breakpoints, byBreakpoint, n - 1)
  }

  /** How a consumer reads a fallback chain over these breakpoints: the first
      one whose breakpoint variable is set (its query matches); None is the
      `unset` terminal. */
  function FirstMatching(chain: seq<string>, matching: seq<string>): Option<string> {
    if chain == [] then None
    else if chain[0] in matching then Some(chain[0])
    else FirstMatching(chain[1..], matching)
  }

  lemma {:induction false} FirstMatchingAgrees(chain: seq<string>, m1: seq<string>, m2: seq<string>)
    requires forall x :: x in chain ==> (x in m1 <==> x in m2)
    ensures FirstMatching(chain, m1) == FirstMatching(chain, m2)
  {
    if chain != [] {
      FirstMatchingAgrees(chain[1..], m1, m2);
    }
  }

  lemma {:induction false} InForcePrefix(breakpoints: seq<string>, byBreakpoint: map<string, string>, k: nat, n: nat)
    requires k <= n <= |breakpoints|
    ensures InForce(breakpoints[..n], byBreakpoint, k) == InForce(breakpoints, byBreakpoint, k)
  {
    if k > 0 {
      InForcePrefix(breakpoints, byBreakpoint, k - 1, n);
    }
  }

  /** Ordering the chain widest first gives mobile-first behaviour: when the
      first `n` breakpoints match, the chain resolves to the value of the
      widest matching breakpoint that was supplied, and to `unset` when no
      supplied breakpoint matches. */
  lemma {:induction false} ChainPicksWidestMatching(breakpoints: seq<string>, byBreakpoint: map<string, string>, n: nat)
    requires Distinct(breakpoints) && n <= |breakpoints|
    ensures FirstMatching(WidestFirst(breakpoints, byBreakpoint), breakpoints[..n]) == InForce(breakpoints, byBreakpoint, n)
    decreases |breakpoints|, 1
  {
    if breakpoints != [] {
      var last := |breakpoints| - 1;
      var init, widest := breakpoints[..last], breakpoints[last];
      if n == |breakpoints| {
        ChainAllMatching(breakpoints, byBreakpoint);
      } else {
        var rest := WidestFirst(init, byBreakpoint);
        assert widest !in breakpoints[..n];
        assert breakpoints[..n] == init[..n];
        assert WidestFirst(breakpoints, byBreakpoint) == (if widest in byBreakpoint then [widest] else []) + rest;
        if widest in byBreakpoint {
          assert ([widest] + rest)[1..] == rest;
        } else {
          assert [] + rest == rest;
        }
        ChainPicksWidestMatching(init, byBreakpoint, n);
        InForcePrefix(breakpoints, byBreakpoint, n, last);
      }
    }
  }

  /** ChainPicksWidestMatching when every configured breakpoint matches. */
  lemma {:induction false} ChainAllMatching(breakpoints: seq<string>, byBreakpoint: map<string, string>)
    requires Distinct(breakpoints) && breakpoints != []
    ensures FirstMatching(WidestFirst(breakpoints, byBreakpoint), breakpoints[..|breakpoints|]) == InForce(breakpoints, byBreakpoint, |breakpoints|)
    decreases |breakpoints|, 0
  {
    var last := |breakpoints| - 1;
    var init, widest := breakpoints[..last], breakpoints[last];
    assert breakpoints[..|breakpoints|] == breakpoints;
    if widest !in byBreakpoint {
      var rest := WidestFirst(init, byBreakpoint);
      WidestFirstOrder(init, byBreakpoint);
      assert breakpoints == init + [widest];
      FirstMatchingAgrees(rest, breakpoints, init);
      ChainPicksWidestMatching(init, byBreakpoint, last);
      assert init[..last] == init;
      InForcePrefix(breakpoints, byBreakpoint, last, last);
    }
  }

  predicate IsUpper(c: char) {
    'A' <= c <= 'Z'
  }

  /** camelCase to kebab-case: each capital becomes '-' and its lower case. */
  function Kebab(name: string): string {
    if name == [] then []
    else
      var head := if IsUpper(name[0]) then ['-', (name[0] as int + 32) as char] else [name[0]];
      head + Kebab(name[1..])
  }

  /** A kebab-case name has no capitals left, and each capital added a
      dash. */
  lemma {:induction false} KebabHasNoCapitals(name: string)
    ensures |Kebab(name)| >= |name|
    ensures forall i :: 0 <= i < |Kebab(name)| ==> !IsUpper(Kebab(name)[i])
  {
    if name != [] {
      KebabHasNoCapitals(name[1..]);
      var head := if IsUpper(name[0]) then ['-', (name[0] as int + 32) as char] else [name[0]];
      assert Kebab(name) == head + Kebab(name[1..]);
      forall i | 0 <= i < |Kebab(name)| ensures !IsUpper(Kebab(name)[i]) {
        if i >= |head| {
          assert Kebab(name)[i] == Kebab(name[1..])[i - |head|];
        }
      }
    }
  }

  /** Kebab works a character at a time, so it distributes over
      concatenation. */
  lemma {:induction false} KebabAppend(a: string, b: string)
    ensures Kebab(a + b) == Kebab(a) + Kebab(b)
  {
    if a != [] {
      var head := if IsUpper(a[0]) then ['-', (a[0] as int + 32) as char] else [a[0]];
      assert (a + b)[0] == a[0] && (a + b)[1..] == a[1..] + b;
      assert Kebab(a + b) == head + Kebab(a[1..] + b);
      KebabAppend(a[1..], b);
      assert head + (Kebab(a[1..]) + Kebab(b)) == (head + Kebab(a[1..])) + Kebab(b);
    } else {
      assert a + b == b;
    }
  }

  /** A name without capitals is already in kebab case. */
  lemma {:induction false} KebabLowerCase(name: string)
    requires forall i :: 0 <= i < |name| ==> !IsUpper(name[i])
    ensures Kebab(name) == name
  {
    if name != [] {
      KebabLowerCase(name[1..]);
    }
  }

  /** The custom property holding `prop`'s value at breakpoint `bp`. */
  function IntermediateName(prop: string, bp: string): string {
    "--pc-box-" + Kebab(prop) + "-" + bp
  }

  function ChainNames(prop: string, breakpoints: seq<string>): (names: seq<string>)
    ensures |names| == |breakpoints|
  {
    seq(|breakpoints|, i requires 0 <= i < |breakpoints| => IntermediateName(prop, breakpoints[i]))
  }

  /** `var(n0, var(n1, … unset))`: the first name that holds a value wins. */
  function FallbackChain(names: seq<string>): string {
    if names == [] then "unset" else "var(" + names[0] + ", " + FallbackChain(names[1..]) + ")"
  }

  function Openings(names: seq<string>): string {
    if names == [] then "" else "var(" + names[0] + ", " + Openings(names[1..])
  }

  function Closings(n: nat): string {
    if n == 0 then "" else ")" + Closings(n - 1)
  }

  /** The chain opens one `var(` per name, in the given order, ends in
      `unset`, and closes every `var(` it opened. */
  lemma {:induction false} FallbackChainShape(names: seq<string>)
    ensures FallbackChain(names) == Openings(names) + "unset" + Closings(|names|)
  {
    if names != [] {
      FallbackChainShape(names[1..]);
      var o, c := Openings(names[1..]), Closings(|names| - 1);
      calc {
        FallbackChain(names);
        "var(" + names[0] + ", " + (o + "unset" + c) + ")";
        { assert Closings(|names|) == ")" + c; ClosingsSwap(|names| - 1); }
        ("var(" + names[0] + ", " + o) + "unset" + Closings(|names|);
      }
    }
  }

  lemma {:induction false} ClosingsSwap(n: nat)
    ensures Closings(n) + ")" == ")" + Closings(n)
  {
    if n > 0 {
      ClosingsSwap(n - 1);
    }
  }

  // ---------------------------------------------------------------------
  // Output assembly

  /** A key of the style object: a physical prop, or the per-breakpoint
      custom property of one. */
  datatype OutputKey = Property(name: string) | BreakpointVar(property: string, breakpoint: string)

  function OutputKeys(breakpoints: seq<string>, w: map<string, Candidate>): set<OutputKey> {
    (set p | p in w :: Property(p)) +
    (set p, bp | p in w && w[p].value.Responsive? && bp in w[p].value.byBreakpoint && bp in breakpoints :: BreakpointVar(p, bp))
  }

  /** The value `var(--_<bp>) <resolved>` held by a breakpoint's custom
      property. */
  function AtBreakpoint(bp: string, resolved: string): string {
    "var(--_" + bp + ") " + resolved
  }

  function OutputValue(resolve: (string, string) -> string, breakpoints: seq<string>,
                       w: map<string, Candidate>, k: OutputKey): string
    requires k in OutputKeys(breakpoints, w)
  {
    match k
    case Property(p) =>
      (match w[p].value
       case Single(v) => resolve(v, p)
       case Responsive(m) => FallbackChain(ChainNames(p, WidestFirst(breakpoints, m))))
    case BreakpointVar(p, bp) => AtBreakpoint(bp, resolve(w[p].value.byBreakpoint[bp], p))
  }

  /** convertStylePropsToCSSProperties: expand aliases, keep the most
      specific value per physical prop, resolve it through the token
      callback, and emit it directly or as a responsive fallback chain. */
  function ConvertStyleProps(aliases: AliasTable, resolve: (string, string) -> string,
                             breakpoints: seq<string>, entries: Entries): (out: map<OutputKey, string>)
    ensures var w := Winners(aliases, entries);
      forall p :: Property(p) in out <==> p in w
    ensures var w := Winners(aliases, entries);
      forall p, bp :: BreakpointVar(p, bp) in out <==>
        p in w && w[p].value.Responsive? && bp in w[p].value.byBreakpoint && bp in breakpoints
  {
    var w := Winners(aliases, entries);
    map k | k in OutputKeys(breakpoints, w) :: OutputValue(resolve, breakpoints, w, k)
  }

  /** The style object does not depend on the order the props were written
      in. */
  lemma {:induction false} ConvertOrderIndependent(aliases: AliasTable, resolve: (string, string) -> string,
                                                   breakpoints: seq<string>, e1: Entries, e2: Entries)
    requires WellFormed(aliases) && KeysUnique(e1)
    requires multiset(e1) == multiset(e2)
    ensures ConvertStyleProps(aliases, resolve, breakpoints, e1) == ConvertStyleProps(aliases, resolve, breakpoints, e2)
  {
    WinnersOrderIndependent(aliases, e1, e2);
  }

  /** The style object compiles `prop`'s per-breakpoint values `m`: one
      `var(--_<bp>) <resolved>` binding per supplied, configured breakpoint,
      and the prop itself bound to the widest-first fallback chain over them. */
  ghost predicate ResponsiveBindings(resolve: (string, string) -> string, breakpoints: seq<string>,
                                     out: map<OutputKey, string>, prop: string, m: map<string, string>) {
    && Property(prop) in out
    && out[Property(prop)] == FallbackChain(ChainNames(prop, WidestFirst(breakpoints, m)))
    && forall bp :: bp in breakpoints && bp in m ==>
         BreakpointVar(prop, bp) in out && out[BreakpointVar(prop, bp)] == AtBreakpoint(bp, resolve(m[bp], prop))
  }

  /** What the style object holds for a physical prop that has a winner. */
  lemma ConvertedBinding(aliases: AliasTable, resolve: (string, string) -> string,
                         breakpoints: seq<string>, entries: Entries, p: string)
    requires p in Winners(aliases, entries)
    ensures var w, out := Winners(aliases, entries), ConvertStyleProps(aliases, resolve, breakpoints, entries);
      && Property(p) in out
      && (w[p].value.Single? ==> out[Property(p)] == resolve(w[p].value.value, p))
      && (w[p].value.Responsive? ==> ResponsiveBindings(resolve, breakpoints, out, p, w[p].value.byBreakpoint))
  {
  }

  /** An alias that is the most specific source for one of its targets hands
      that target its value unchanged: resolved directly when it is a single
      value, and as one `var(--_<bp>) …` binding per supplied breakpoint plus
      the widest-first fallback chain when it is responsive. */
  lemma {:induction false} AliasSpreadsToTarget(aliases: AliasTable, resolve: (string, string) -> string,
                                                breakpoints: seq<string>, entries: Entries,
                                                alias: string, value: StyleValue, t: Target)
    requires WellFormed(aliases) && KeysUnique(entries)
    requires (alias, value) in entries && alias in aliases && t in aliases[alias]
    requires forall d :: IsCandidate(aliases, entries, d) && d.physical == t.physical ==> !Outranks(d.specificity, ViaAlias(t.rank))
    ensures var out := ConvertStyleProps(aliases, resolve, breakpoints, entries);
      && Property(t.physical) in out
      && (value.Single? ==> out[Property(t.physical)] == resolve(value.value, t.physical))
      && (value.Responsive? ==> ResponsiveBindings(resolve, breakpoints, out, t.physical, value.byBreakpoint))
  {
    var c := Candidate(alias, t.physical, value, ViaAlias(t.rank));
    ExpandMembership(aliases, alias, value, c);
    MostSpecificWins(aliases, entries, c);
    ConvertedBinding(aliases, resolve, breakpoints, entries, t.physical);
  }

  /** Props that are all physical and non-responsive come out as they went
      in, each value passed once through the token callback. */
  lemma {:induction false} PhysicalPropsPassThrough(aliases: AliasTable, resolve: (string, string) -> string,
                                                    breakpoints: seq<string>, entries: Entries)
    requires KeysUnique(entries)
    requires forall e :: e in entries ==> e.0 !in aliases && e.1.Single?
    ensures var out := ConvertStyleProps(aliases, resolve, breakpoints, entries);
      && (forall e :: e in entries ==> Property(e.0) in out && out[Property(e.0)] == resolve(e.1.value, e.0))
      && (forall k :: k in out ==> k.Property? && exists e :: e in entries && e.0 == k.name)
  {
    var w := Winners(aliases, entries);
    WinnersSelectMostSpecific(aliases, entries);
    forall e | e in entries ensures Property(e.0) in ConvertStyleProps(aliases, resolve, breakpoints, entries)
      && ConvertStyleProps(aliases, resolve, breakpoints, entries)[Property(e.0)] == resolve(e.1.value, e.0)
    {
      ExplicitPropWins(aliases, entries, e.0, e.1);
      ConvertedBinding(aliases, resolve, breakpoints, entries, e.0);
    }
    forall p | p in w ensures w[p].value.Single? && (w[p].source, w[p].value) in entries && w[p].source == p {
      ExpandMembership(aliases, w[p].source, w[p].value, w[p]);
    }
  }

  /** When no winning value is responsive the style object is flat: one
      binding per physical prop that has a winner, holding the winner's value
      passed through the token callback. */
  lemma {:induction false} SingleValuedOutput(aliases: AliasTable, resolve: (string, string) -> string,
                                              breakpoints: seq<string>, entries: Entries)
    requires forall p :: p in Winners(aliases, entries) ==> Winners(aliases, entries)[p].value.Single?
    ensures var w, out := Winners(aliases, entries), ConvertStyleProps(aliases, resolve, breakpoints, entries);
      && (forall k :: k in out <==> k.Property? && k.name in w)
      && (forall p :: p in w ==> out[Property(p)] == resolve(w[p].value.value, p))
  {
    var w := Winners(aliases, entries);
    forall p | p in w ensures ConvertStyleProps(aliases, resolve, breakpoints, entries)[Property(p)] == resolve(w[p].value.value, p) {
      ConvertedBinding(aliases, resolve, breakpoints, entries, p);
    }
  }
}
