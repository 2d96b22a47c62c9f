/**
  Box, the lowest-level layout primitive. Before rendering it takes out the
  props it handles itself, splits what is left into ARIA attributes and
  style props, and compiles the style props into a style object with a
  callback that turns tokenized values into Polaris CSS variables.
*/
module Box {
  import opened Wrappers
  import opened StyleEngine

  /** The props Box destructures out of its props before the split. */
  const DestructuredProps: set<string> := {"as", "id", "role", "printHidden", "visuallyHidden", "tabIndex", "children"}

  predicate StartsWith(s: string, prefix: string) {
    |prefix| <= |s| && s[..|prefix|] == prefix
  }

  /** An ARIA attribute: a key starting with `aria-`. */
  predicate IsAriaProp(key: string) {
    StartsWith(key, "aria-")
  }

  // ---------------------------------------------------------------------
  // Splitting the props

  /** `...props`: the entries left once the destructured props are taken out. */
  function RestProps(entries: Entries): (rest: Entries)
    ensures forall e :: e in rest <==> e in entries && e.0 !in DestructuredProps
  {
    if entries == [] then []
    else (if entries[0].0 in DestructuredProps then [] else [entries[0]]) + RestProps(entries[1..])
  }

  /** `Object.fromEntries(propArray.filter(...))`: the entries whose key is
      (`aria` true) or is not (`aria` false) an ARIA attribute, in order. */
  function SelectAria(entries: Entries, aria: bool): (r: Entries)
    ensures forall e :: e in r <==> e in entries && IsAriaProp(e.0) == aria
  {
    if entries == [] then []
    else (if IsAriaProp(entries[0].0) == aria then [entries[0]] else []) + SelectAria(entries[1..], aria)
  }

  function StyleProps(rest: Entries): Entries {
    SelectAria(rest, false)
  }

  function AriaProps(rest: Entries): Entries {
    SelectAria(rest, true)
  }

  /** The split loses nothing and duplicates nothing: the style props and
      the ARIA props together are exactly the rest props, and the ARIA props
      are exactly the entries whose key starts with `aria-`. */
  lemma {:induction false} SplitIsExact(rest: Entries)
    ensures multiset(StyleProps(rest)) + multiset(AriaProps(rest)) == multiset(rest)
    ensures forall e :: e in AriaProps(rest) <==> e in rest && IsAriaProp(e.0)
    ensures forall e :: e in StyleProps(rest) <==> e in rest && !IsAriaProp(e.0)
  {
    if rest != [] {
      SplitIsExact(rest[1..]);
      assert rest == [rest[0]] + rest[1..];
    }
  }

  // ---------------------------------------------------------------------
  // Token resolution

  /** A reference to the Polaris token `<group>-<value>`:
      `var(--p-<group>-<value>)`. */
  function PolarisCssVar(group: string, value: string): string {
    "var(--p-" + group + "-" + value + ")"
  }

  /** Read the token value back out of a reference to a token of `group`. */
  function TokenValue(group: string, css: string): Option<string> {
    var prefix := "var(--p-" + group + "-";
    if StartsWith(css, prefix) && |css| > |prefix| && css[|css| - 1] == ')'
    then Some(css[|prefix|..|css| - 1])
    else None
  }

  /** The token reference loses nothing: the value can be read back. */
  lemma TokenValueRoundTrip(group: string, value: string)
    ensures TokenValue(group, PolarisCssVar(group, value)) == Some(value)
  {
    var prefix := "var(--p-" + group + "-";
    var css := PolarisCssVar(group, value);
    assert css == prefix + value + ")";
    assert css[..|prefix|] == prefix;
    assert css[|prefix|..|css| - 1] == value;
  }

  /** The callback Box gives the engine: a prop listed in the token-group
      map gets a reference to the token of its group, any other prop keeps
      its value as it is. */
  function ResolveStyleValue(tokenGroups: map<string, string>, value: string, prop: string): string {
    if prop in tokenGroups then PolarisCssVar(tokenGroups[prop], value) else value
  }

  function Resolver(tokenGroups: map<string, string>): (string, string) -> string {
    (value, prop) => ResolveStyleValue(tokenGroups, value, prop)
  }

  /** A tokenized prop's value becomes a reference to the token of the prop's
      group, from which the value can be read back; any other prop's value
      passes through unchanged. */
  lemma ResolveStyleValueSpec(tokenGroups: map<string, string>, value: string, prop: string)
    ensures prop in tokenGroups ==> TokenValue(tokenGroups[prop], ResolveStyleValue(tokenGroups, value, prop)) == Some(value)
    ensures prop !in tokenGroups ==> ResolveStyleValue(tokenGroups, value, prop) == value
  {
    if prop in tokenGroups {
      TokenValueRoundTrip(tokenGroups[prop], value);
    }
  }

  // ---------------------------------------------------------------------
  // The component

  /** The tables Box is built with. */
  datatype BoxConfig = BoxConfig(aliases: AliasTable, tokenGroups: map<string, string>, breakpoints: seq<string>)

  /** What Box renders: the element, its style object and its ARIA
      attributes. */
  datatype BoxElement = BoxElement(tag: string, style: map<OutputKey, string>, aria: Entries)

  /** The element type: the `as` prop, `div` when it is not given. */
  function TagOf(entries: Entries): (tag: string)
    ensures ("as", Single(tag)) in entries || tag == "div"
    ensures (forall t :: ("as", Single(t)) !in entries) ==> tag == "div"
  {
    if entries == [] then "div"
    else if entries[0].0 == "as" && entries[0].1.Single? then entries[0].1.value
    else TagOf(entries[1..])
  }

  function RenderBox(cfg: BoxConfig, props: Entries): BoxElement {
    var rest := RestProps(props);
    BoxElement(
      TagOf(props),
      ConvertStyleProps(cfg.aliases, Resolver(cfg.tokenGroups), cfg.breakpoints, StyleProps(rest)),
      AriaProps(rest))
  }

  /** The element is the tag given by `as`, and `div` when no `as` is
      given. */
  lemma {:induction false} RenderBoxTag(cfg: BoxConfig, props: Entries, t: string)
    requires KeysUnique(props)
    ensures ("as", Single(t)) in props ==> RenderBox(cfg, props).tag == t
    ensures (forall e :: e in props ==> e.0 != "as") ==> RenderBox(cfg, props).tag == "div"
  {
    if ("as", Single(t)) in props {
      TagOfFirstAs(props, t);
    }
  }

  /** With one value per key, an `as` entry is the one TagOf picks. */
  lemma {:induction false} TagOfFirstAs(props: Entries, t: string)
    requires KeysUnique(props) && ("as", Single(t)) in props
    ensures TagOf(props) == t
  {
    if props[0].0 != "as" {
      KeysUniqueTail(props);
      TagOfFirstAs(props[1..], t);
    }
  }

  lemma KeysUniqueTail(props: Entries)
    requires KeysUnique(props) && props != []
    ensures KeysUnique(props[1..])
  {
    forall e | e in props[1..] ensures e in props {
    }
  }

  /** The engine sees exactly the non-ARIA props that Box does not handle
      itself, and the element gets exactly the ARIA ones: `as`, `id`, `role`,
      `printHidden`, `visuallyHidden`, `tabIndex` and `children` never reach
      either. */
  lemma RenderBoxSplitsProps(cfg: BoxConfig, props: Entries)
    ensures var rest := RestProps(props);
      forall e :: e in StyleProps(rest) <==> e in props && e.0 !in DestructuredProps && !IsAriaProp(e.0)
    ensures forall e :: e in RenderBox(cfg, props).aria <==> e in props && IsAriaProp(e.0)
  {
    forall e | e in props && IsAriaProp(e.0) ensures e.0 !in DestructuredProps {
      AriaPropNotDestructured(e.0);
    }
  }

  /** No prop Box destructures is an ARIA attribute. */
  lemma AriaPropNotDestructured(key: string)
    requires IsAriaProp(key)
    ensures key !in DestructuredProps
  {
    assert key[0] == 'a' && key[1] == 'r';
  }

  /** A selection of the entries of a props object is a props object. */
  lemma KeysUniqueSubset(small: Entries, big: Entries)
    requires KeysUnique(big)
    requires forall e :: e in small ==> e in big
    ensures KeysUnique(small)
  {
  }

  /** When no prop is one Box handles itself or an ARIA attribute, the
      engine compiles every prop, in the order written. */
  lemma StyleSeesEveryProp(cfg: BoxConfig, props: Entries)
    requires forall e :: e in props ==> e.0 !in DestructuredProps && !IsAriaProp(e.0)
    ensures RenderBox(cfg, props).style == ConvertStyleProps(cfg.aliases, Resolver(cfg.tokenGroups), cfg.breakpoints, props)
  {
    RestKeepsAll(props);
    SelectKeepsAll(props);
  }

  lemma {:induction false} RestKeepsAll(props: Entries)
    requires forall e :: e in props ==> e.0 !in DestructuredProps
    ensures RestProps(props) == props
  {
    if props != [] {
      RestKeepsAll(props[1..]);
    }
  }

  lemma {:induction false} SelectKeepsAll(props: Entries)
    requires forall e :: e in props ==> !IsAriaProp(e.0)
    ensures SelectAria(props, false) == props
  {
    if props != [] {
      SelectKeepsAll(props[1..]);
    }
  }

  /** Box's style object does not depend on the order its props were
      written in. */
  lemma RenderBoxOrderIndependent(cfg: BoxConfig, p1: Entries, p2: Entries)
    requires WellFormed(cfg.aliases) && KeysUnique(p1)
    requires multiset(p1) == multiset(p2)
    ensures RenderBox(cfg, p1).style == RenderBox(cfg, p2).style
  {
    var s1, s2 := StyleProps(RestProps(p1)), StyleProps(RestProps(p2));
    RestPermutes(p1, p2);
    SelectPermutes(RestProps(p1), RestProps(p2), false);
    KeysUniqueSubset(s1, p1);
    ConvertOrderIndependent(cfg.aliases, Resolver(cfg.tokenGroups), cfg.breakpoints, s1, s2);
  }

  lemma {:induction false} RestPermutes(p1: Entries, p2: Entries)
    requires multiset(p1) == multiset(p2)
    ensures multiset(RestProps(p1)) == multiset(RestProps(p2))
  {
    RestMultiset(p1);
    RestMultiset(p2);
  }

  /** The multiset of the rest props depends only on the multiset of the
      props. */
  lemma {:induction false} RestMultiset(p: Entries)
    ensures forall e :: multiset(RestProps(p))[e] == if e.0 in DestructuredProps then 0 else multiset(p)[e]
  {
    if p != [] {
      RestMultiset(p[1..]);
      assert p == [p[0]] + p[1..];
    }
  }

  lemma {:induction false} SelectPermutes(r1: Entries, r2: Entries, aria: bool)
    requires multiset(r1) == multiset(r2)
    ensures multiset(SelectAria(r1, aria)) == multiset(SelectAria(r2, aria))
  {
    SelectMultiset(r1, aria);
    SelectMultiset(r2, aria);
  }

  lemma {:induction false} SelectMultiset(r: Entries, aria: bool)
    ensures forall e :: multiset(SelectAria(r, aria))[e] == if IsAriaProp(e.0) == aria then multiset(r)[e] else 0
  {
    if r != [] {
      SelectMultiset(r[1..], aria);
      assert r == [r[0]] + r[1..];
    }
  }
}
