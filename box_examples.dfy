/**
  The examples of Box's doc-comment, checked against the model. They hold
  for every configuration shaped like Polaris's own (PolarisShaped):
  `padding` reaches all four logical sides, `paddingInline` and
  `paddingBlock` reach two each and are more specific, the sides resolve
  through the `space` token group, `display` is a plain CSS property, and
  the breakpoints run xs, sm, md, lg, xl.
*/
module BoxExamples {
  import opened StyleEngine
  import opened Box

  const InlineStart := "paddingInlineStart"
  const InlineEnd := "paddingInlineEnd"
  const BlockStart := "paddingBlockStart"
  const BlockEnd := "paddingBlockEnd"

  /** The alias table's padding rows. */
  ghost predicate PaddingAliases(aliases: AliasTable) {
    && WellFormed(aliases)
    && "padding" in aliases
    && aliases["padding"] == [Target(InlineStart, 0), Target(InlineEnd, 0), Target(BlockStart, 0), Target(BlockEnd, 0)]
    && "paddingInline" in aliases
    && aliases["paddingInline"] == [Target(InlineStart, 1), Target(InlineEnd, 1)]
    && "paddingBlock" in aliases
    && aliases["paddingBlock"] == [Target(BlockStart, 1), Target(BlockEnd, 1)]
    && InlineStart !in aliases && InlineEnd !in aliases && BlockStart !in aliases && BlockEnd !in aliases
  }

  ghost predicate PolarisShaped(cfg: BoxConfig) {
    && PaddingAliases(cfg.aliases)
    && "display" !in cfg.aliases
    && "display" !in cfg.tokenGroups
    && (forall side :: side in {InlineStart, InlineEnd, BlockStart, BlockEnd} ==>
          side in cfg.tokenGroups && cfg.tokenGroups[side] == "space")
    && cfg.breakpoints == ["xs", "sm", "md", "lg", "xl"]
  }

  /** Polaris's own tables, cut down to the props these examples use. */
  const Polaris: BoxConfig := BoxConfig(
    map[
      "padding" := [Target(InlineStart, 0), Target(InlineEnd, 0), Target(BlockStart, 0), Target(BlockEnd, 0)],
      "paddingInline" := [Target(InlineStart, 1), Target(InlineEnd, 1)],
      "paddingBlock" := [Target(BlockStart, 1), Target(BlockEnd, 1)]
    ],
    map[InlineStart := "space", InlineEnd := "space", BlockStart := "space", BlockEnd := "space"],
    ["xs", "sm", "md", "lg", "xl"])

  lemma PolarisIsPolarisShaped()
    ensures PolarisShaped(Polaris)
  {
  }

  /** A padding side resolves through the `space` token group. */
  lemma SpaceTokenResolves(cfg: BoxConfig, side: string, value: string)
    requires PolarisShaped(cfg) && side in {InlineStart, InlineEnd, BlockStart, BlockEnd}
    ensures Resolver(cfg.tokenGroups)(value, side) == "var(--p-space-" + value + ")"
  {
  }

  // ---------------------------------------------------------------------
  // <Box display="flex" />  and  <Box paddingInlineStart="400" />

  /** One physical, non-responsive prop compiles to one binding. */
  lemma SinglePhysicalProp(aliases: AliasTable, resolve: (string, string) -> string, breakpoints: seq<string>,
                           prop: string, value: string)
    requires prop !in aliases
    ensures ConvertStyleProps(aliases, resolve, breakpoints, [(prop, Single(value))])
      == map[Property(prop) := resolve(value, prop)]
  {
    var props: Entries := [(prop, Single(value))];
    PhysicalPropsPassThrough(aliases, resolve, breakpoints, props);
    OnlyBinding(ConvertStyleProps(aliases, resolve, breakpoints, props), props, Property(prop), resolve(value, prop));
  }

  /** A style object whose every key comes from a one-entry props object
      holds that entry's binding alone. */
  lemma OnlyBinding(out: map<OutputKey, string>, props: Entries, k: OutputKey, v: string)
    requires |props| == 1 && k == Property(props[0].0)
    requires k in out && out[k] == v
    requires forall k' :: k' in out ==> k'.Property? && exists e :: e in props && e.0 == k'.name
    ensures out == map[k := v]
  {
    forall k' | k' in out ensures k' == k {
      var e :| e in props && e.0 == k'.name;
    }
    Singleton(out, k, v);
  }

  lemma Singleton<K, V>(m: map<K, V>, k: K, v: V)
    requires k in m && m[k] == v
    requires forall k' :: k' in m ==> k' == k
    ensures m == map[k := v]
  {
  }

  /** `<Box display="flex" />` renders `display: flex`, and nothing else. */
  lemma StandardPropPassesThrough(cfg: BoxConfig)
    requires PolarisShaped(cfg)
    ensures RenderBox(cfg, [("display", Single("flex"))]).style == map[Property("display") := "flex"]
  {
    assert "display"[..5][0] == 'd';
    StyleSeesEveryProp(cfg, [("display", Single("flex"))]);
    SinglePhysicalProp(cfg.aliases, Resolver(cfg.tokenGroups), cfg.breakpoints, "display", "flex");
  }

  /** `<Box paddingInlineStart="400" />` renders
      `padding-inline-start: var(--p-space-400)`. */
  lemma TokenizedPropBecomesVar(cfg: BoxConfig)
    requires PolarisShaped(cfg)
    ensures RenderBox(cfg, [(InlineStart, Single("400"))]).style
      == map[Property(InlineStart) := "var(--p-space-400)"]
  {
    assert InlineStart[..5][0] == 'p';
    StyleSeesEveryProp(cfg, [(InlineStart, Single("400"))]);
    TokenizedStyle(cfg);
  }

  lemma TokenizedStyle(cfg: BoxConfig)
    requires PolarisShaped(cfg)
    ensures ConvertStyleProps(cfg.aliases, Resolver(cfg.tokenGroups), cfg.breakpoints, [(InlineStart, Single("400"))])
      == map[Property(InlineStart) := "var(--p-space-400)"]
  {
    SinglePhysicalProp(cfg.aliases, Resolver(cfg.tokenGroups), cfg.breakpoints, InlineStart, "400");
    SpaceTokenResolves(cfg, InlineStart, "400");
    assert "var(--p-space-" + "400" + ")" == "var(--p-space-400)";
  }

  // ---------------------------------------------------------------------
  // <Box paddingInlineStart="200" padding="400" paddingBlock="600" />

  const Mixed: Entries := [(InlineStart, Single("200")), ("padding", Single("400")), ("paddingBlock", Single("600"))]

  /** Every proposal the mixed props make. */
  const MixedProposals: seq<Candidate> := [
    Candidate(InlineStart, InlineStart, Single("200"), Direct),
    Candidate("padding", InlineStart, Single("400"), ViaAlias(0)),
    Candidate("padding", InlineEnd, Single("400"), ViaAlias(0)),
    Candidate("padding", BlockStart, Single("400"), ViaAlias(0)),
    Candidate("padding", BlockEnd, Single("400"), ViaAlias(0)),
    Candidate("paddingBlock", BlockStart, Single("600"), ViaAlias(1)),
    Candidate("paddingBlock", BlockEnd, Single("600"), ViaAlias(1))
  ]

  /** The proposal that wins each side: the explicit `paddingInlineStart`,
      `paddingBlock` on the block sides, `padding` on the remaining one. */
  const MixedWinners: map<string, Candidate> := map[
    InlineStart := MixedProposals[0], InlineEnd := MixedProposals[2],
    BlockStart := MixedProposals[5], BlockEnd := MixedProposals[6]]

  /** The four sides, and the aliases, are distinct names. */
  lemma SidesDistinct()
    ensures InlineStart != InlineEnd && InlineStart != BlockStart && InlineStart != BlockEnd
    ensures InlineEnd != BlockStart && InlineEnd != BlockEnd && BlockStart != BlockEnd
  {
    assert InlineStart[7] == 'I' && InlineStart[13] == 'S';
    assert InlineEnd[7] == 'I' && InlineEnd[13] == 'E';
    assert BlockStart[7] == 'B' && BlockStart[12] == 'S';
    assert BlockEnd[7] == 'B' && BlockEnd[12] == 'E';
  }

  lemma MixedKeysUnique()
    ensures KeysUnique(Mixed)
  {
  }

  lemma MixedProposalsExact(aliases: AliasTable, d: Candidate)
    requires PaddingAliases(aliases)
    ensures IsCandidate(aliases, Mixed, d) <==> d in MixedProposals
  {
    ExpandMembership(aliases, d.source, d.value, d);
  }

  lemma MixedWinnersExact(aliases: AliasTable)
    requires PaddingAliases(aliases)
    ensures Winners(aliases, Mixed) == MixedWinners
  {
    forall d ensures IsCandidate(aliases, Mixed, d) <==> d in MixedProposals {
      MixedProposalsExact(aliases, d);
    }
    MixedKeysUnique();
    MixedChoiceCovers();
    MixedChoiceProposed();
    MixedChoiceUnbeaten();
    WinnersCharacterised(aliases, Mixed, MixedProposals, MixedWinners);
  }

  lemma MixedChoiceCovers()
    ensures forall d :: d in MixedProposals ==> d.physical in MixedWinners
  {
  }

  lemma MixedChoiceProposed()
    ensures forall p :: p in MixedWinners ==> MixedWinners[p].physical == p && MixedWinners[p] in MixedProposals
  {
    SidesDistinct();
  }

  lemma MixedChoiceUnbeaten()
    ensures forall p, d :: p in MixedWinners && d in MixedProposals && d.physical == p ==>
      !Outranks(d.specificity, MixedWinners[p].specificity)
  {
    SidesDistinct();
  }

  lemma MixedWinnersSingle(aliases: AliasTable)
    requires PaddingAliases(aliases)
    ensures forall p :: p in Winners(aliases, Mixed) ==> Winners(aliases, Mixed)[p].value.Single?
  {
    MixedWinnersExact(aliases);
    MixedWinnersAreSingle(Winners(aliases, Mixed));
  }

  lemma MixedWinnersAreSingle(w: map<string, Candidate>)
    requires w == MixedWinners
    ensures forall p :: p in w ==> w[p].value.Single?
  {
    SidesDistinct();
  }

  /** The doc-comment's precedence example: `paddingInlineStart` then
      `paddingBlock` then `padding`. */
  lemma MostSpecificAliasWins(cfg: BoxConfig)
    requires PolarisShaped(cfg)
    ensures RenderBox(cfg, Mixed).style == map[
      Property(InlineStart) := "var(--p-space-200)",
      Property(InlineEnd) := "var(--p-space-400)",
      Property(BlockStart) := "var(--p-space-600)",
      Property(BlockEnd) := "var(--p-space-600)"]
  {
    assert InlineStart[..5][0] == 'p' && "padding"[..5][0] == 'p' && "paddingBlock"[..5][0] == 'p';
    StyleSeesEveryProp(cfg, Mixed);
    MixedStyle(cfg);
  }

  lemma MixedStyle(cfg: BoxConfig)
    requires PolarisShaped(cfg)
    ensures ConvertStyleProps(cfg.aliases, Resolver(cfg.tokenGroups), cfg.breakpoints, Mixed) == map[
      Property(InlineStart) := "var(--p-space-200)",
      Property(InlineEnd) := "var(--p-space-400)",
      Property(BlockStart) := "var(--p-space-600)",
      Property(BlockEnd) := "var(--p-space-600)"]
  {
    var resolve := Resolver(cfg.tokenGroups);
    var out := ConvertStyleProps(cfg.aliases, resolve, cfg.breakpoints, Mixed);
    MixedWinnersSingle(cfg.aliases);
    MixedWinnersExact(cfg.aliases);
    SingleValuedOutput(cfg.aliases, resolve, cfg.breakpoints, Mixed);
    FlatStyle(cfg, out);
  }

  /** The flat style object over MixedWinners, tokens resolved. */
  lemma FlatStyle(cfg: BoxConfig, out: map<OutputKey, string>)
    requires PolarisShaped(cfg)
    requires forall k :: k in out <==> k.Property? && k.name in MixedWinners
    requires forall p :: p in MixedWinners ==> out[Property(p)] == Resolver(cfg.tokenGroups)(MixedWinners[p].value.value, p)
    ensures out == map[
      Property(InlineStart) := "var(--p-space-200)",
      Property(InlineEnd) := "var(--p-space-400)",
      Property(BlockStart) := "var(--p-space-600)",
      Property(BlockEnd) := "var(--p-space-600)"]
  {
    SpaceTokenResolves(cfg, InlineStart, "200");
    SpaceTokenResolves(cfg, InlineEnd, "400");
    SpaceTokenResolves(cfg, BlockStart, "600");
    SpaceTokenResolves(cfg, BlockEnd, "600");
    assert "var(--p-space-" + "200" + ")" == "var(--p-space-200)";
    assert "var(--p-space-" + "400" + ")" == "var(--p-space-400)";
    assert "var(--p-space-" + "600" + ")" == "var(--p-space-600)";
    MapsAgree(out, map[
      Property(InlineStart) := "var(--p-space-200)",
      Property(InlineEnd) := "var(--p-space-400)",
      Property(BlockStart) := "var(--p-space-600)",
      Property(BlockEnd) := "var(--p-space-600)"]);
  }

  // ---------------------------------------------------------------------
  // <Box display={{sm: 'grid', xl: 'flex'}} paddingInline={{xs: '200', lg: '400'}} />

  const DisplayByBreakpoint: map<string, string> := map["sm" := "grid", "xl" := "flex"]
  const PaddingByBreakpoint: map<string, string> := map["xs" := "200", "lg" := "400"]

  const PerBreakpoint: Entries := [("display", Responsive(DisplayByBreakpoint)), ("paddingInline", Responsive(PaddingByBreakpoint))]

  const ResponsiveProposals: seq<Candidate> := [
    Candidate("display", "display", Responsive(DisplayByBreakpoint), Direct),
    Candidate("paddingInline", InlineStart, Responsive(PaddingByBreakpoint), ViaAlias(1)),
    Candidate("paddingInline", InlineEnd, Responsive(PaddingByBreakpoint), ViaAlias(1))
  ]

  const ResponsiveWinners: map<string, Candidate> := map[
    "display" := ResponsiveProposals[0], InlineStart := ResponsiveProposals[1], InlineEnd := ResponsiveProposals[2]]

  lemma DisplayIsNotASide()
    ensures "display" != InlineStart && "display" != InlineEnd && "display" != BlockStart && "display" != BlockEnd
  {
    assert "display"[1] == 'i' && InlineStart[1] == 'a' && InlineEnd[1] == 'a';
    assert BlockStart[1] == 'a' && BlockEnd[1] == 'a';
  }

  lemma ResponsiveKeysUnique()
    ensures KeysUnique(PerBreakpoint)
  {
  }

  lemma ResponsiveProposalsExact(aliases: AliasTable, d: Candidate)
    requires PaddingAliases(aliases) && "display" !in aliases
    ensures IsCandidate(aliases, PerBreakpoint, d) <==> d in ResponsiveProposals
  {
    ExpandMembership(aliases, d.source, d.value, d);
  }

  lemma ResponsiveChoiceValid()
    ensures forall d :: d in ResponsiveProposals ==> d.physical in ResponsiveWinners
    ensures forall p :: p in ResponsiveWinners ==> ResponsiveWinners[p].physical == p && ResponsiveWinners[p] in ResponsiveProposals
    ensures forall p, d :: p in ResponsiveWinners && d in ResponsiveProposals && d.physical == p ==>
      !Outranks(d.specificity, ResponsiveWinners[p].specificity)
  {
    SidesDistinct();
    DisplayIsNotASide();
  }

  lemma ResponsiveWinnersExact(aliases: AliasTable)
    requires PaddingAliases(aliases) && "display" !in aliases
    ensures Winners(aliases, PerBreakpoint) == ResponsiveWinners
  {
    forall d ensures IsCandidate(aliases, PerBreakpoint, d) <==> d in ResponsiveProposals {
      ResponsiveProposalsExact(aliases, d);
    }
    ResponsiveKeysUnique();
    ResponsiveChoiceValid();
    WinnersCharacterised(aliases, PerBreakpoint, ResponsiveProposals, ResponsiveWinners);
  }

  /** The breakpoints a value is supplied for, widest first. */
  lemma DisplayChainOrder(breakpoints: seq<string>)
    requires breakpoints == ["xs", "sm", "md", "lg", "xl"]
    ensures WidestFirst(breakpoints, DisplayByBreakpoint) == ["xl", "sm"]
  {
    var m := DisplayByBreakpoint;
    var b4, b3, b2, b1 := breakpoints[..4], breakpoints[..3], breakpoints[..2], breakpoints[..1];
    assert b4[..3] == b3 && b3[..2] == b2 && b2[..1] == b1 && b1[..0] == [];
    assert WidestFirst(b1, m) == [];
    assert WidestFirst(b2, m) == ["sm"];
    assert WidestFirst(b3, m) == ["sm"];
    assert WidestFirst(b4, m) == ["sm"];
  }

  lemma PaddingChainOrder(breakpoints: seq<string>)
    requires breakpoints == ["xs", "sm", "md", "lg", "xl"]
    ensures WidestFirst(breakpoints, PaddingByBreakpoint) == ["lg", "xs"]
  {
    var m := PaddingByBreakpoint;
    var b4, b3, b2, b1 := breakpoints[..4], breakpoints[..3], breakpoints[..2], breakpoints[..1];
    assert b4[..3] == b3 && b3[..2] == b2 && b2[..1] == b1 && b1[..0] == [];
    assert WidestFirst(b1, m) == ["xs"];
    assert WidestFirst(b2, m) == ["xs"];
    assert WidestFirst(b3, m) == ["xs"];
    assert WidestFirst(b4, m) == ["lg", "xs"];
  }

  /** The breakpoint variables of a prop over two breakpoints. */
  lemma TwoNames(prop: string, wide: string, narrow: string)
    ensures ChainNames(prop, [wide, narrow]) == [IntermediateName(prop, wide), IntermediateName(prop, narrow)]
  {
  }

  lemma DisplayNames(prop: string)
    requires prop == "display"
    ensures IntermediateName(prop, "xl") == "--pc-box-display-xl"
    ensures IntermediateName(prop, "sm") == "--pc-box-display-sm"
  {
    KebabLowerCase(prop);
  }

  lemma KebabPadding(s: string)
    requires s == "padding"
    ensures Kebab(s) == "padding"
  {
    KebabLowerCase(s);
  }

  /** A capitalised word gets a dash and loses its capital. */
  lemma KebabWord(s: string, capital: char, rest: string, kebab: string)
    requires s == [capital] + rest && IsUpper(capital)
    requires forall i :: 0 <= i < |rest| ==> !IsUpper(rest[i])
    requires kebab == ['-', (capital as int + 32) as char] + rest
    ensures Kebab(s) == kebab
  {
    KebabAppend([capital], rest);
    KebabLowerCase(rest);
  }

  lemma KebabThreeWords(a: string, b: string, c: string, kebab: string)
    requires a == "padding" && b == "Inline" && kebab == "padding-inline" + Kebab(c)
    ensures Kebab(a + b + c) == kebab
  {
    KebabAppend(a + b, c);
    KebabAppend(a, b);
    KebabPadding(a);
    KebabWord(b, 'I', "nline", "-inline");
  }

  lemma InlineStartKebab(side: string)
    requires side == InlineStart
    ensures Kebab(side) == "padding-inline-start"
  {
    assert side == "padding" + "Inline" + "Start";
    KebabWord("Start", 'S', "tart", "-start");
    KebabThreeWords("padding", "Inline", "Start", "padding-inline-start");
  }

  lemma InlineEndKebab(side: string)
    requires side == InlineEnd
    ensures Kebab(side) == "padding-inline-end"
  {
    assert side == "padding" + "Inline" + "End";
    KebabWord("End", 'E', "nd", "-end");
    KebabThreeWords("padding", "Inline", "End", "padding-inline-end");
  }

  /** The name of a breakpoint variable, from the prop's kebab-case form. */
  lemma NamedAt(prop: string, kebab: string, bp: string, name: string)
    requires Kebab(prop) == kebab && name == "--pc-box-" + kebab + "-" + bp
    ensures IntermediateName(prop, bp) == name
  {
  }

  lemma InlineStartLiterals()
    ensures "--pc-box-" + "padding-inline-start" + "-" + "lg" == "--pc-box-padding-inline-start-lg"
    ensures "--pc-box-" + "padding-inline-start" + "-" + "xs" == "--pc-box-padding-inline-start-xs"
  {
  }

  lemma InlineEndLiterals()
    ensures "--pc-box-" + "padding-inline-end" + "-" + "lg" == "--pc-box-padding-inline-end-lg"
    ensures "--pc-box-" + "padding-inline-end" + "-" + "xs" == "--pc-box-padding-inline-end-xs"
  {
  }

  lemma InlineSideNames(start: string, end: string)
    requires start == InlineStart && end == InlineEnd
    ensures IntermediateName(start, "lg") == "--pc-box-padding-inline-start-lg"
    ensures IntermediateName(start, "xs") == "--pc-box-padding-inline-start-xs"
    ensures IntermediateName(end, "lg") == "--pc-box-padding-inline-end-lg"
    ensures IntermediateName(end, "xs") == "--pc-box-padding-inline-end-xs"
  {
    InlineStartKebab(start);
    InlineEndKebab(end);
    InlineStartLiterals();
    InlineEndLiterals();
    NamedAt(start, "padding-inline-start", "lg", "--pc-box-padding-inline-start-lg");
    NamedAt(start, "padding-inline-start", "xs", "--pc-box-padding-inline-start-xs");
    NamedAt(end, "padding-inline-end", "lg", "--pc-box-padding-inline-end-lg");
    NamedAt(end, "padding-inline-end", "xs", "--pc-box-padding-inline-end-xs");
  }

  /** What the doc-comment shows for these props, without the hover rows. */
  const ResponsiveStyle: map<OutputKey, string> := map[
    BreakpointVar("display", "sm") := "var(--_sm) grid",
    BreakpointVar("display", "xl") := "var(--_xl) flex",
    Property("display") := FallbackChain(["--pc-box-display-xl", "--pc-box-display-sm"]),
    BreakpointVar(InlineStart, "xs") := "var(--_xs) var(--p-space-200)",
    BreakpointVar(InlineStart, "lg") := "var(--_lg) var(--p-space-400)",
    Property(InlineStart) := FallbackChain(["--pc-box-padding-inline-start-lg", "--pc-box-padding-inline-start-xs"]),
    BreakpointVar(InlineEnd, "xs") := "var(--_xs) var(--p-space-200)",
    BreakpointVar(InlineEnd, "lg") := "var(--_lg) var(--p-space-400)",
    Property(InlineEnd) := FallbackChain(["--pc-box-padding-inline-end-lg", "--pc-box-padding-inline-end-xs"])
  ]

  /** The doc-comment's responsive example: both props become one
      `var(--_<bp>) <value>` variable per supplied breakpoint, and the
      physical props read those variables through a widest-first chain;
      paddingInline reaches both inline sides with its values resolved
      through the `space` token group. */
  lemma ResponsiveValuesBecomeChains(cfg: BoxConfig)
    requires PolarisShaped(cfg)
    ensures RenderBox(cfg, PerBreakpoint).style == ResponsiveStyle
  {
    assert "display"[..5][0] == 'd' && "paddingInline"[..5][0] == 'p';
    StyleSeesEveryProp(cfg, PerBreakpoint);
    ResponsiveOutput(cfg);
  }

  lemma ResponsiveOutput(cfg: BoxConfig)
    requires PolarisShaped(cfg)
    ensures ConvertStyleProps(cfg.aliases, Resolver(cfg.tokenGroups), cfg.breakpoints, PerBreakpoint) == ResponsiveStyle
  {
    DisplayFacts(cfg);
    InlineFacts(cfg);
    KeyFacts(cfg);
    AssembleResponsive(ResponsiveOut(cfg));
  }

  /** The style object the responsive example compiles to. */
  function ResponsiveOut(cfg: BoxConfig): map<OutputKey, string> {
    ConvertStyleProps(cfg.aliases, Resolver(cfg.tokenGroups), cfg.breakpoints, PerBreakpoint)
  }

  lemma DisplayFacts(cfg: BoxConfig)
    requires PolarisShaped(cfg)
    ensures Property("display") in ResponsiveOut(cfg) && ResponsiveOut(cfg)[Property("display")] == FallbackChain(["--pc-box-display-xl", "--pc-box-display-sm"])
    ensures BreakpointVar("display", "sm") in ResponsiveOut(cfg) && ResponsiveOut(cfg)[BreakpointVar("display", "sm")] == "var(--_sm) grid"
    ensures BreakpointVar("display", "xl") in ResponsiveOut(cfg) && ResponsiveOut(cfg)[BreakpointVar("display", "xl")] == "var(--_xl) flex"
  {
    ResponsiveBound(cfg, "display");
    DisplayValues(cfg, ResponsiveOut(cfg));
  }

  lemma InlineFacts(cfg: BoxConfig)
    requires PolarisShaped(cfg)
    ensures Property(InlineStart) in ResponsiveOut(cfg)
      && ResponsiveOut(cfg)[Property(InlineStart)] == FallbackChain(["--pc-box-padding-inline-start-lg", "--pc-box-padding-inline-start-xs"])
    ensures BreakpointVar(InlineStart, "xs") in ResponsiveOut(cfg) && ResponsiveOut(cfg)[BreakpointVar(InlineStart, "xs")] == "var(--_xs) var(--p-space-200)"
    ensures BreakpointVar(InlineStart, "lg") in ResponsiveOut(cfg) && ResponsiveOut(cfg)[BreakpointVar(InlineStart, "lg")] == "var(--_lg) var(--p-space-400)"
    ensures Property(InlineEnd) in ResponsiveOut(cfg)
      && ResponsiveOut(cfg)[Property(InlineEnd)] == FallbackChain(["--pc-box-padding-inline-end-lg", "--pc-box-padding-inline-end-xs"])
    ensures BreakpointVar(InlineEnd, "xs") in ResponsiveOut(cfg) && ResponsiveOut(cfg)[BreakpointVar(InlineEnd, "xs")] == "var(--_xs) var(--p-space-200)"
    ensures BreakpointVar(InlineEnd, "lg") in ResponsiveOut(cfg) && ResponsiveOut(cfg)[BreakpointVar(InlineEnd, "lg")] == "var(--_lg) var(--p-space-400)"
  {
    ResponsiveBound(cfg, InlineStart);
    ResponsiveBound(cfg, InlineEnd);
    InlineSideNames(InlineStart, InlineEnd);
    InlineValues(cfg, ResponsiveOut(cfg), InlineStart, "--pc-box-padding-inline-start-lg", "--pc-box-padding-inline-start-xs");
    InlineValues(cfg, ResponsiveOut(cfg), InlineEnd, "--pc-box-padding-inline-end-lg", "--pc-box-padding-inline-end-xs");
  }

  lemma KeyFacts(cfg: BoxConfig)
    requires PolarisShaped(cfg)
    ensures forall k :: k in ResponsiveOut(cfg) <==> k in ResponsiveStyle
  {
    ResponsiveKeyFacts(cfg);
    ResponsiveKeys(cfg.breakpoints, ResponsiveOut(cfg));
  }

  lemma AssembleResponsive(out: map<OutputKey, string>)
    requires forall k :: k in out <==> k in ResponsiveStyle
    requires out[Property("display")] == FallbackChain(["--pc-box-display-xl", "--pc-box-display-sm"])
    requires out[BreakpointVar("display", "sm")] == "var(--_sm) grid"
    requires out[BreakpointVar("display", "xl")] == "var(--_xl) flex"
    requires out[Property(InlineStart)] == FallbackChain(["--pc-box-padding-inline-start-lg", "--pc-box-padding-inline-start-xs"])
    requires out[BreakpointVar(InlineStart, "xs")] == "var(--_xs) var(--p-space-200)"
    requires out[BreakpointVar(InlineStart, "lg")] == "var(--_lg) var(--p-space-400)"
    requires out[Property(InlineEnd)] == FallbackChain(["--pc-box-padding-inline-end-lg", "--pc-box-padding-inline-end-xs"])
    requires out[BreakpointVar(InlineEnd, "xs")] == "var(--_xs) var(--p-space-200)"
    requires out[BreakpointVar(InlineEnd, "lg")] == "var(--_lg) var(--p-space-400)"
    ensures out == ResponsiveStyle
  {
    SidesDistinct();
    DisplayIsNotASide();
    MapsAgree(out, ResponsiveStyle);
  }

  lemma ResponsiveBound(cfg: BoxConfig, p: string)
    requires PolarisShaped(cfg) && p in ResponsiveWinners
    ensures ResponsiveBindings(Resolver(cfg.tokenGroups), cfg.breakpoints,
      ConvertStyleProps(cfg.aliases, Resolver(cfg.tokenGroups), cfg.breakpoints, PerBreakpoint), p,
      ResponsiveWinners[p].value.byBreakpoint)
  {
    ResponsiveWinnersExact(cfg.aliases);
    ConvertedBinding(cfg.aliases, Resolver(cfg.tokenGroups), cfg.breakpoints, PerBreakpoint, p);
  }

  lemma DisplayValues(cfg: BoxConfig, out: map<OutputKey, string>)
    requires PolarisShaped(cfg)
    requires ResponsiveBindings(Resolver(cfg.tokenGroups), cfg.breakpoints, out, "display", DisplayByBreakpoint)
    ensures Property("display") in out && out[Property("display")] == FallbackChain(["--pc-box-display-xl", "--pc-box-display-sm"])
    ensures BreakpointVar("display", "sm") in out && out[BreakpointVar("display", "sm")] == "var(--_sm) grid"
    ensures BreakpointVar("display", "xl") in out && out[BreakpointVar("display", "xl")] == "var(--_xl) flex"
  {
    DisplayChainOrder(cfg.breakpoints);
    TwoNames("display", "xl", "sm");
    DisplayNames("display");
    assert "var(--_" + "sm" + ") " + "grid" == "var(--_sm) grid";
    assert "var(--_" + "xl" + ") " + "flex" == "var(--_xl) flex";
  }

  lemma InlineValues(cfg: BoxConfig, out: map<OutputKey, string>, side: string, wideName: string, narrowName: string)
    requires cfg.breakpoints == ["xs", "sm", "md", "lg", "xl"]
    requires side in cfg.tokenGroups && cfg.tokenGroups[side] == "space"
    requires ResponsiveBindings(Resolver(cfg.tokenGroups), cfg.breakpoints, out, side, PaddingByBreakpoint)
    requires IntermediateName(side, "lg") == wideName && IntermediateName(side, "xs") == narrowName
    ensures Property(side) in out && out[Property(side)] == FallbackChain([wideName, narrowName])
    ensures BreakpointVar(side, "xs") in out && out[BreakpointVar(side, "xs")] == "var(--_xs) var(--p-space-200)"
    ensures BreakpointVar(side, "lg") in out && out[BreakpointVar(side, "lg")] == "var(--_lg) var(--p-space-400)"
  {
    PaddingChainOrder(cfg.breakpoints);
    TwoNames(side, "lg", "xs");
    InlineVarValues(cfg.tokenGroups, out, side);
  }

  lemma InlineVarValues(tokenGroups: map<string, string>, out: map<OutputKey, string>, side: string)
    requires side in tokenGroups && tokenGroups[side] == "space"
    requires BreakpointVar(side, "xs") in out && out[BreakpointVar(side, "xs")] == AtBreakpoint("xs", Resolver(tokenGroups)("200", side))
    requires BreakpointVar(side, "lg") in out && out[BreakpointVar(side, "lg")] == AtBreakpoint("lg", Resolver(tokenGroups)("400", side))
    ensures out[BreakpointVar(side, "xs")] == "var(--_xs) var(--p-space-200)"
    ensures out[BreakpointVar(side, "lg")] == "var(--_lg) var(--p-space-400)"
  {
    assert Resolver(tokenGroups)("200", side) == PolarisCssVar("space", "200");
    assert Resolver(tokenGroups)("400", side) == PolarisCssVar("space", "400");
    SpaceVarLiterals();
  }

  lemma SpaceVarLiterals()
    ensures AtBreakpoint("xs", PolarisCssVar("space", "200")) == "var(--_xs) var(--p-space-200)"
    ensures AtBreakpoint("lg", PolarisCssVar("space", "400")) == "var(--_lg) var(--p-space-400)"
  {
  }

  /** Which values each prop supplies per breakpoint. */
  ghost predicate SuppliedAt(p: string, bp: string) {
    (p == "display" && bp in DisplayByBreakpoint) || ((p == InlineStart || p == InlineEnd) && bp in PaddingByBreakpoint)
  }

  /** The keys the compiled style object has for these props. */
  lemma ResponsiveKeyFacts(cfg: BoxConfig)
    requires PolarisShaped(cfg)
    ensures var out := ConvertStyleProps(cfg.aliases, Resolver(cfg.tokenGroups), cfg.breakpoints, PerBreakpoint);
      && (forall p :: Property(p) in out <==> p in ResponsiveWinners)
      && (forall p, bp :: BreakpointVar(p, bp) in out <==> SuppliedAt(p, bp) && bp in cfg.breakpoints)
  {
    ResponsiveWinnersExact(cfg.aliases);
    ResponsiveSupplied(Winners(cfg.aliases, PerBreakpoint));
  }

  lemma ResponsiveSupplied(w: map<string, Candidate>)
    requires w == ResponsiveWinners
    ensures forall p, bp :: p in w && w[p].value.Responsive? && bp in w[p].value.byBreakpoint <==> SuppliedAt(p, bp)
  {
    DisplayIsNotASide();
    SidesDistinct();
  }

  lemma ResponsiveKeys(breakpoints: seq<string>, out: map<OutputKey, string>)
    requires breakpoints == ["xs", "sm", "md", "lg", "xl"]
    requires forall p :: Property(p) in out <==> p in ResponsiveWinners
    requires forall p, bp :: BreakpointVar(p, bp) in out <==> SuppliedAt(p, bp) && bp in breakpoints
    ensures forall k :: k in out <==> k in ResponsiveStyle
  {
    forall k ensures k in out <==> k in ResponsiveStyle {
      if k.Property? {
        PropertyKeys(k);
      } else {
        BreakpointKeys(breakpoints, k);
      }
    }
  }

  lemma PropertyKeys(k: OutputKey)
    requires k.Property?
    ensures k.name in ResponsiveWinners <==> k in ResponsiveStyle
  {
    SidesDistinct();
    DisplayIsNotASide();
  }

  lemma BreakpointKeys(breakpoints: seq<string>, k: OutputKey)
    requires breakpoints == ["xs", "sm", "md", "lg", "xl"] && k.BreakpointVar?
    ensures SuppliedAt(k.property, k.breakpoint) && k.breakpoint in breakpoints <==> k in ResponsiveStyle
  {
    SidesDistinct();
    DisplayIsNotASide();
  }
}
