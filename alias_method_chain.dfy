/**
  `Module#alias_method_chain`: wraps a method `target` with a feature.

  From `target` and `feature` it derives two names, `<base>_with_<feature><p>`
  and `<base>_without_<feature><p>`, where `p` is the target's trailing
  `?`, `!` or `=`, if any. It then makes the `without` name refer to the
  original implementation, makes `target` refer to the `with` implementation,
  and gives `target` back the visibility the original had.
*/
module AliasMethodChain {
  import opened Wrappers

  // ---------------------------------------------------------------------------
  // Name derivation
  // ---------------------------------------------------------------------------

  predicate IsPunctuation(c: char)
  {
    c == '?' || c == '!' || c == '='
  }

  predicate EndsWithPunctuation(s: string)
  {
    |s| > 0 && IsPunctuation(s[|s| - 1])
  }

  /** The feature name with one trailing `?`, `!` or `=` removed. */
  function StripPunctuation(feature: string): (r: string)
    ensures r <= feature && |feature| - 1 <= |r|
    ensures |r| < |feature| <==> EndsWithPunctuation(feature)
  {
    if EndsWithPunctuation(feature) then feature[..|feature| - 1] else feature
  }

  /** How a punctuation mark reads when interpolated; a missing one reads as nothing. */
  function PunctuationText(p: Option<char>): string
  {
    match p
    case None => ""
    case Some(c) => [c]
  }

  /** The target name split into its base and its trailing punctuation mark. */
  datatype TargetParts = TargetParts(base: string, punctuation: Option<char>)

  function SplitTarget(target: string): (r: TargetParts)
    ensures r.base + PunctuationText(r.punctuation) == target
    ensures r.punctuation.Some? <==> EndsWithPunctuation(target)
    ensures r.punctuation.Some? ==> IsPunctuation(r.punctuation.value)
  {
    if EndsWithPunctuation(target)
    then TargetParts(target[..|target| - 1], Some(target[|target| - 1]))
    else TargetParts(target, None)
  }

  datatype ChainNames = ChainNames(withMethod: string, withoutMethod: string)

  function Names(target: string, feature: string): ChainNames
  {
    var parts, f := SplitTarget(target), StripPunctuation(feature);
    var p := PunctuationText(parts.punctuation);
    ChainNames(parts.base + "_with_" + f + p, parts.base + "_without_" + f + p)
  }

  /**
    The derived names: both start with the target's base, carry the stripped
    feature after `_with_` or `_without_`, and end with the target's
    punctuation; the three names involved are pairwise distinct.
  */
  lemma NamesShape(target: string, feature: string)
    ensures var n, parts := Names(target, feature), SplitTarget(target);
      var f, p := StripPunctuation(feature), PunctuationText(parts.punctuation);
      && n.withMethod == parts.base + "_with_" + f + p
      && n.withoutMethod == parts.base + "_without_" + f + p
      && target == parts.base + p
      && n.withMethod != n.withoutMethod
      && n.withMethod != target
      && n.withoutMethod != target
  {
  }

  /** Different features (up to their trailing punctuation) give different names. */
  lemma {:induction false} NamesDetermineFeature(target: string, f1: string, f2: string)
    requires Names(target, f1).withMethod == Names(target, f2).withMethod
    ensures StripPunctuation(f1) == StripPunctuation(f2)
  {
    var parts := SplitTarget(target);
    var p := PunctuationText(parts.punctuation);
    var g1, g2 := StripPunctuation(f1), StripPunctuation(f2);
    var w1, w2 := parts.base + "_with_" + g1 + p, parts.base + "_with_" + g2 + p;
    var lo := |parts.base| + 6;
    assert |g1| == |g2|;
    assert w1[lo..lo + |g1|] == g1;
    assert w2[lo..lo + |g2|] == g2;
  }

  // ---------------------------------------------------------------------------
  // The method table
  // ---------------------------------------------------------------------------

  datatype Visibility = Public | Protected | Private

  /** A method's implementation, by identity, and its visibility. */
  datatype MethodEntry = MethodEntry(body: nat, visibility: Visibility)

  type MethodTable = map<string, MethodEntry>

  /** Completion of a call, or the `NameError` raised for an undefined method. */
  datatype Outcome = Done | NameError(name: string)

  /** The block given to `alias_method_chain`, as its effect on the table. */
  type Block = (string, Option<char>, MethodTable) -> MethodTable

  /** The table once the block, if any, has run with the target's base and punctuation. */
  function AfterBlock(t: MethodTable, target: string, block: Option<Block>): MethodTable
  {
    var parts := SplitTarget(target);
    match block
    case None => t
    case Some(f) => f(parts.base, parts.punctuation, t)
  }

  /** A module's own method table, updated in place. */
  class RubyModule {
    var methods: MethodTable

    constructor (methods: MethodTable)
      ensures this.methods == methods
    {
      this.methods := methods;
    }

    predicate PublicMethodDefined(name: string)
      reads this
    {
      name in methods && methods[name].visibility == Public
    }

    predicate ProtectedMethodDefined(name: string)
      reads this
    {
      name in methods && methods[name].visibility == Protected
    }

    predicate PrivateMethodDefined(name: string)
      reads this
    {
      name in methods && methods[name].visibility == Private
    }

    /** `alias_method newName, oldName`: `newName` gets a copy of the old entry. */
    method AliasMethod(newName: string, oldName: string) returns (res: Outcome)
      modifies this
      ensures oldName in old(methods) ==>
        res == Done && methods == old(methods)[newName := old(methods)[oldName]]
      ensures oldName !in old(methods) ==>
        res == NameError(oldName) && methods == old(methods)
    {
      if oldName !in methods {
        return NameError(oldName);
      }
      methods := methods[newName := methods[oldName]];
      res := Done;
    }

    /** `public name`, `protected name` or `private name`. */
    method SetVisibility(name: string, visibility: Visibility) returns (res: Outcome)
      modifies this
      ensures name in old(methods) ==>
        res == Done && methods == old(methods)[name := old(methods)[name].(visibility := visibility)]
      ensures name !in old(methods) ==>
        res == NameError(name) && methods == old(methods)
    {
      if name !in methods {
        return NameError(name);
      }
      methods := methods[name := methods[name].(visibility := visibility)];
      res := Done;
    }

    /**
      Wraps `target` with `feature`. Relative to the table `t` left by the
      block: on success `without` holds the original target, `target` holds
      the `with` implementation under the original's visibility, and no other
      entry changes. An undefined target fails before any change; an
      undefined `with` method fails after `without` has been created.
    */
    method AliasMethodChain(target: string, feature: string, block: Option<Block>) returns (res: Outcome)
      modifies this
      ensures var t, n := AfterBlock(old(methods), target, block), Names(target, feature);
        target !in t ==> res == NameError(target) && methods == t
      ensures var t, n := AfterBlock(old(methods), target, block), Names(target, feature);
        target in t && n.withMethod !in t ==>
          res == NameError(n.withMethod) && methods == t[n.withoutMethod := t[target]]
      ensures var t, n := AfterBlock(old(methods), target, block), Names(target, feature);
        target in t && n.withMethod in t ==>
          && res == Done
          && methods.Keys == t.Keys + {n.withoutMethod}
          && methods[n.withoutMethod] == t[target]
          && methods[target] == MethodEntry(t[n.withMethod].body, t[target].visibility)
          && (forall name :: name in t && name != target && name != n.withoutMethod ==>
                methods[name] == t[name])
    {
      var parts := SplitTarget(target);
      if block.Some? {
        methods := block.value(parts.base, parts.punctuation, methods);
      }
      var names := Names(target, feature);
      NamesShape(target, feature);
      ghost var t := methods;

      res := AliasMethod(names.withoutMethod, target);
      if res.NameError? {
        return;
      }
      ghost var u := methods;
      assert u == t[names.withoutMethod := t[target]];
      res := AliasMethod(target, names.withMethod);
      if res.NameError? {
        return;
      }
      assert u[names.withMethod] == t[names.withMethod];
      assert methods == u[target := t[names.withMethod]];
      assert methods[names.withoutMethod] == t[target];

      if PublicMethodDefined(names.withoutMethod) {
        res := SetVisibility(target, Public);
      } else if ProtectedMethodDefined(names.withoutMethod) {
        res := SetVisibility(target, Protected);
      } else if PrivateMethodDefined(names.withoutMethod) {
        res := SetVisibility(target, Private);
      }
    }
  }

  /** The names derived for a predicate target and a plain feature. */
  lemma PredicateTargetNames()
    ensures Names("valid?", "check") == ChainNames("valid_with_check?", "valid_without_check?")
  {
    assert "valid?"[5] == '?' && "valid?"[..5] == "valid";
    assert SplitTarget("valid?") == TargetParts("valid", Some('?'));
    assert "check"[4] == 'k';
    assert StripPunctuation("check") == "check";
    assert PunctuationText(Some('?')) == "?";
    assert "valid" + "_with_" + "check" + "?" == "valid_with_check?";
    assert "valid" + "_without_" + "check" + "?" == "valid_without_check?";
  }

  /** The names derived for a plain target and a bang feature, whose `!` is dropped. */
  lemma BangFeatureNames()
    ensures Names("save", "audit!") == ChainNames("save_with_audit", "save_without_audit")
  {
    assert "save"[3] == 'e';
    assert SplitTarget("save") == TargetParts("save", None);
    assert "audit!"[5] == '!' && "audit!"[..5] == "audit";
    assert StripPunctuation("audit!") == "audit";
    assert "save" + "_with_" + "audit" + "" == "save_with_audit";
    assert "save" + "_without_" + "audit" + "" == "save_without_audit";
  }

  /** A caller's view: chaining a private predicate with a public feature method. */
  method ChainExample()
  {
    var m := new RubyModule(map["valid?" := MethodEntry(1, Private),
                                "valid_with_check?" := MethodEntry(2, Public)]);
    PredicateTargetNames();
    assert AfterBlock(m.methods, "valid?", None) == m.methods;
    var res := m.AliasMethodChain("valid?", "check", None);
    assert res == Done;
    assert m.methods["valid?"] == MethodEntry(2, Private);
    assert m.methods["valid_without_check?"] == MethodEntry(1, Private);
  }

  /** A caller's view: the `with` method is missing, so only `without` is created. */
  method ChainMissingWithExample()
  {
    var m := new RubyModule(map["save" := MethodEntry(1, Public)]);
    BangFeatureNames();
    assert AfterBlock(m.methods, "save", None) == m.methods;
    assert "save_with_audit" !in m.methods;
    var res := m.AliasMethodChain("save", "audit!", None);
    assert res == NameError("save_with_audit");
    assert m.methods == map["save" := MethodEntry(1, Public), "save_without_audit" := MethodEntry(1, Public)];
  }
}
