/**
 * How the `#[token]` macro turns the variants of the annotated enum into rule declarations.
 * Each variant's attributes are read in order. An attribute whose path is a single identifier
 * but whose argument is not a string literal makes the macro panic; the first `terminal` or
 * `literal` attribute reached before that decides the rule; variants with neither are dropped.
 * Only the resulting order and classification are modelled, not the code generation.
 */
module Declarations {
  import opened Wrappers

  /** An attribute's path: a single identifier, or some longer path. */
  datatype AttrPath = Ident(name: string) | OtherPath

  /** An attribute's arguments: a single string literal, or anything else. */
  datatype AttrArgs = StrLit(value: string) | OtherArgs

  datatype Attr = Attr(path: AttrPath, args: AttrArgs)

  datatype VariantDecl = VariantDecl(name: string, attrs: seq<Attr>)

  datatype Kind = TerminalKind | LiteralKind

  /** A rule to insert into the table: the variant, its kind, and its pattern text. */
  datatype RuleDecl = RuleDecl(name: string, kind: Kind, pattern: string)

  /** The macro's panic message for an attribute whose argument is not a string literal. */
  function MissingMatcher(name: string): string
  {
    "missing matcher for #[terminal] " + name
  }

  /**
   * The loop over a variant's attributes: attributes whose path is not a single identifier are
   * skipped; any other attribute must have a string literal argument (otherwise the macro
   * panics); `terminal` and `literal` decide the rule, other identifiers are skipped.
   */
  function ClassifyAttrs(name: string, attrs: seq<Attr>): Result<Option<RuleDecl>, string>
  {
    if attrs == [] then Ok(None)
    else match attrs[0].path
      case OtherPath => ClassifyAttrs(name, attrs[1..])
      case Ident(id) =>
        match attrs[0].args
        case OtherArgs => Err(MissingMatcher(name))
        case StrLit(lit) =>
          if id == "terminal" then Ok(Some(RuleDecl(name, TerminalKind, lit)))
          else if id == "literal" then Ok(Some(RuleDecl(name, LiteralKind, lit)))
          else ClassifyAttrs(name, attrs[1..])
  }

  function Classify(v: VariantDecl): Result<Option<RuleDecl>, string>
  {
    ClassifyAttrs(v.name, v.attrs)
  }

  /** An attribute the loop passes over without deciding anything. */
  predicate Passes(a: Attr)
  {
    a.path.OtherPath? || (a.args.StrLit? && a.path.name != "terminal" && a.path.name != "literal")
  }

  /** What the first attribute that does not pass decides. */
  function Decide(name: string, a: Attr): Result<Option<RuleDecl>, string>
    requires !Passes(a)
  {
    if a.args.OtherArgs? then Err(MissingMatcher(name))
    else Ok(Some(RuleDecl(name, if a.path.name == "terminal" then TerminalKind else LiteralKind, a.args.value)))
  }

  /**
   * The first attribute that does not pass decides the variant: a panic, or a rule whose kind is
   * that attribute's name; with no such attribute the variant has no rule.
   */
  lemma {:induction false} ClassifyFirstDecides(name: string, attrs: seq<Attr>, k: nat)
    requires k <= |attrs|
    requires forall i :: 0 <= i < k ==> Passes(attrs[i])
    requires k == |attrs| || !Passes(attrs[k])
    ensures ClassifyAttrs(name, attrs) == if k == |attrs| then Ok(None) else Decide(name, attrs[k])
  {
    if k > 0 {
      ClassifyFirstDecides(name, attrs[1..], k - 1);
    }
  }

  /** `filter_map` over the variants, in declaration order; the first panic aborts. */
  function RuleDecls(vs: seq<VariantDecl>): Result<seq<RuleDecl>, string>
  {
    if vs == [] then Ok([])
    else match Classify(vs[0])
      case Err(e) => Err(e)
      case Ok(o) =>
        match RuleDecls(vs[1..])
        case Err(e) => Err(e)
        case Ok(rest) => Ok((if o.Some? then [o.value] else []) + rest)
  }

  predicate Kept(v: VariantDecl)
  {
    Classify(v).Ok? && Classify(v).value.Some?
  }

  /** The positions of the variants that get a rule. */
  function KeptIndices(vs: seq<VariantDecl>): (ix: seq<nat>)
    decreases |vs|
  {
    if vs == [] then []
    else (if Kept(vs[0]) then [0] else []) + Shifted(KeptIndices(vs[1..]))
  }

  /**
   * The kept positions are exactly the variants that get a rule, each once, in increasing
   * order.
   */
  lemma KeptIndicesSpec(vs: seq<VariantDecl>)
    ensures var ix := KeptIndices(vs);
      && (forall k :: 0 <= k < |ix| ==> ix[k] < |vs| && Kept(vs[ix[k]]))
      && (forall k, l :: 0 <= k < l < |ix| ==> ix[k] < ix[l])
      && (forall i :: 0 <= i < |vs| && Kept(vs[i]) ==> i in ix)
  {
    KeptIndicesSound(vs);
    KeptIndicesIncreasing(vs);
    KeptIndicesComplete(vs);
  }

  lemma {:induction false} KeptIndicesSound(vs: seq<VariantDecl>)
    ensures forall k :: 0 <= k < |KeptIndices(vs)| ==> KeptIndices(vs)[k] < |vs| && Kept(vs[KeptIndices(vs)[k]])
  {
    if vs != [] {
      var rest := KeptIndices(vs[1..]);
      KeptIndicesSound(vs[1..]);
      var head := if Kept(vs[0]) then [0] else [];
      var ix := head + Shifted(rest);
      assert KeptIndices(vs) == ix;
      forall k | 0 <= k < |ix| ensures ix[k] < |vs| && Kept(vs[ix[k]]) {
        if k >= |head| {
          var j := k - |head|;
          assert ix[k] == Shifted(rest)[j] == rest[j] + 1;
          assert rest[j] < |vs[1..]| && Kept(vs[1..][rest[j]]);
          assert vs[1..][rest[j]] == vs[ix[k]];
        }
      }
    }
  }

  lemma {:induction false} KeptIndicesIncreasing(vs: seq<VariantDecl>)
    ensures forall k, l :: 0 <= k < l < |KeptIndices(vs)| ==> KeptIndices(vs)[k] < KeptIndices(vs)[l]
  {
    if vs != [] {
      KeptIndicesIncreasing(vs[1..]);
      var rest := KeptIndices(vs[1..]);
      var head := if Kept(vs[0]) then [0] else [];
      var ix := head + Shifted(rest);
      assert KeptIndices(vs) == ix;
      forall k, l | 0 <= k < l < |ix| ensures ix[k] < ix[l] {
        assert ix[l] == Shifted(rest)[l - |head|] == rest[l - |head|] + 1;
        if k >= |head| {
          assert ix[k] == Shifted(rest)[k - |head|] == rest[k - |head|] + 1;
        }
      }
    }
  }

  lemma {:induction false} KeptIndicesComplete(vs: seq<VariantDecl>)
    ensures forall i :: 0 <= i < |vs| && Kept(vs[i]) ==> i in KeptIndices(vs)
  {
    if vs != [] {
      var rest := KeptIndices(vs[1..]);
      KeptIndicesComplete(vs[1..]);
      var head := if Kept(vs[0]) then [0] else [];
      var ix := head + Shifted(rest);
      assert KeptIndices(vs) == ix;
      forall i | 0 <= i < |vs| && Kept(vs[i]) ensures i in ix {
        if i > 0 {
          assert vs[1..][i - 1] == vs[i];
          var k :| 0 <= k < |rest| && rest[k] == i - 1;
          assert ix[|head| + k] == i;
        }
      }
    }
  }

  /** Declarations `ds` that come, one by one, from the variants of `vs` at the positions `ix`. */
  predicate DeclaredAt(vs: seq<VariantDecl>, ds: seq<RuleDecl>, ix: seq<nat>)
  {
    |ds| == |ix| && forall k :: 0 <= k < |ds| ==> ix[k] < |vs| && Classify(vs[ix[k]]) == Ok(Some(ds[k]))
  }

  /** Putting the first variant's declaration, if any, before those of the rest. */
  lemma DeclaredAtCons(vs: seq<VariantDecl>, first: seq<RuleDecl>, ds: seq<RuleDecl>, head: seq<nat>, ix: seq<nat>)
    requires vs != []
    requires (first == [] && head == []) || (head == [0] && |first| == 1 && Classify(vs[0]) == Ok(Some(first[0])))
    requires DeclaredAt(vs[1..], ds, ix)
    ensures DeclaredAt(vs, first + ds, head + Shifted(ix))
  {
    var all, at := first + ds, head + Shifted(ix);
    forall k | 0 <= k < |all| ensures at[k] < |vs| && Classify(vs[at[k]]) == Ok(Some(all[k])) {
      if k >= |head| {
        var j := k - |head|;
        assert all[k] == ds[j];
        assert at[k] == ix[j] + 1;
        assert vs[1..][ix[j]] == vs[at[k]];
      }
    }
  }

  /**
   * Without a panic, the rule declarations are those of the kept variants, in the order the
   * variants are declared.
   */
  lemma {:induction false} RuleDeclsInOrder(vs: seq<VariantDecl>)
    requires RuleDecls(vs).Ok?
    ensures DeclaredAt(vs, RuleDecls(vs).value, KeptIndices(vs))
  {
    if vs != [] {
      RuleDeclsInOrder(vs[1..]);
      var o := Classify(vs[0]).value;
      var first: seq<RuleDecl> := if o.Some? then [o.value] else [];
      var head: seq<nat> := if Kept(vs[0]) then [0] else [];
      assert RuleDecls(vs).value == first + RuleDecls(vs[1..]).value;
      assert KeptIndices(vs) == head + Shifted(KeptIndices(vs[1..]));
      DeclaredAtCons(vs, first, RuleDecls(vs[1..]).value, head, KeptIndices(vs[1..]));
    }
  }

  function Shifted(ix: seq<nat>): (r: seq<nat>)
    ensures |r| == |ix| && forall k :: 0 <= k < |ix| ==> r[k] == ix[k] + 1
  {
    if ix == [] then [] else Shifted(ix[..|ix| - 1]) + [ix[|ix| - 1] + 1]
  }

  /** A rule declaration carries the name of the variant it was read from. */
  lemma ClassifyKeepsName(v: VariantDecl)
    ensures Classify(v).Ok? && Classify(v).value.Some? ==> Classify(v).value.value.name == v.name
  {
    ClassifyAttrsKeepsName(v.name, v.attrs);
  }

  lemma {:induction false} ClassifyAttrsKeepsName(name: string, attrs: seq<Attr>)
    ensures var r := ClassifyAttrs(name, attrs); r.Ok? && r.value.Some? ==> r.value.value.name == name
  {
    if attrs != [] {
      ClassifyAttrsKeepsName(name, attrs[1..]);
    }
  }
}
