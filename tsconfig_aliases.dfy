/**
 * `ensure_tsconfig_aliases` (generate_png.py): make the generated site's
 * `tsconfig.json` map the two path aliases of `Aliases` to `Target`,
 * creating `compilerOptions` and `paths` when absent, and rewrite the file
 * only when something changed. Reading, parsing and writing the file are
 * outside the model: the parsed document, if any, is the input.
 */
module TsconfigAliases {
  import opened Wrappers

  /** A JSON value; numbers, booleans and null are kept as their text. */
  datatype Json = JObject(fields: map<string, Json>) | JArray(items: seq<Json>) | JString(s: string) | JScalar(text: string)

  /**
   * What the function does: skip a missing or unreadable file, crash with an
   * `AttributeError` when `setdefault` or `get` meets a non-object, or update
   * the document and report whether anything changed (and so was written).
   */
  datatype Outcome = Skipped | Crash | Updated(data: Json, changed: bool)

  const CompilerOptions: string := "compilerOptions"
  const Paths: string := "paths"
  const Aliases: seq<string> := ["@/*", "~/*"]
  const Target: Json := JArray([JString("./*")])

  /** `data.setdefault(key, {})` seen as a value: the member, or an empty object. */
  function MemberOrEmpty(fields: map<string, Json>, key: string): Json
  {
    if key in fields then fields[key] else JObject(map[])
  }

  /** `paths.get(alias) != target`. */
  predicate Differs(paths: map<string, Json>, alias: string)
  {
    !(alias in paths && paths[alias] == Target)
  }

  /** Some alias needs setting. */
  predicate NeedsUpdate(paths: map<string, Json>)
  {
    exists j :: 0 <= j < |Aliases| && Differs(paths, Aliases[j])
  }

  /** `paths` with the first `n` aliases set to the target. */
  function WithAliases(paths: map<string, Json>, n: nat): map<string, Json>
    requires n <= |Aliases|
  {
    if n == 0 then paths else WithAliases(paths, n - 1)[Aliases[n - 1] := Target]
  }

  /** The outcome of `ensure_tsconfig_aliases` on a parsed document, or on none. */
  function Ensured(config: Option<Json>): Outcome
  {
    if config.None? then Skipped
    else if !config.value.JObject? then Crash
    else
      var top := config.value.fields;
      var compiler := MemberOrEmpty(top, CompilerOptions);
      if !compiler.JObject? then Crash
      else
        var paths := MemberOrEmpty(compiler.fields, Paths);
        if !paths.JObject? then Crash
        else
          var paths' := JObject(WithAliases(paths.fields, |Aliases|));
          Updated(JObject(top[CompilerOptions := JObject(compiler.fields[Paths := paths'])]), NeedsUpdate(paths.fields))
  }

  /**
   * The alias loop: each alias whose current value differs from the target
   * is set, and `changed` records that one was.
   */
  method SetAliases(paths: map<string, Json>) returns (paths': map<string, Json>, changed: bool)
    ensures paths' == WithAliases(paths, |Aliases|)
    ensures changed == NeedsUpdate(paths)
  {
    paths' := paths;
    changed := false;
    for k := 0 to |Aliases|
      invariant paths' == WithAliases(paths, k)
      invariant changed <==> exists j :: 0 <= j < k && Differs(paths, Aliases[j])
    {
      var alias := Aliases[k];
      assert alias in paths' <==> alias in paths;
      assert alias in paths ==> paths'[alias] == paths[alias];
      if !(alias in paths' && paths'[alias] == Target) {
        paths' := paths'[alias := Target];
        changed := true;
      }
    }
  }

  method EnsureTsconfigAliases(config: Option<Json>) returns (outcome: Outcome)
    ensures outcome == Ensured(config)
  {
    if config.None? {
      return Skipped;
    }
    var data := config.value;
    if !data.JObject? {
      return Crash;
    }
    var compiler := MemberOrEmpty(data.fields, CompilerOptions);
    if !compiler.JObject? {
      return Crash;
    }
    var paths := MemberOrEmpty(compiler.fields, Paths);
    if !paths.JObject? {
      return Crash;
    }
    var entries, changed := SetAliases(paths.fields);
    outcome := Updated(JObject(data.fields[CompilerOptions := JObject(compiler.fields[Paths := JObject(entries)])]), changed);
  }

  lemma WithBothAliases(paths: map<string, Json>)
    ensures WithAliases(paths, |Aliases|) == paths[Aliases[0] := Target][Aliases[1] := Target]
  {
    assert |Aliases| == 2;
    assert WithAliases(paths, 1) == paths[Aliases[0] := Target];
  }

  /** The aliases after the loop: both targets set, every other key as it was. */
  lemma WithAliasesEffect(paths: map<string, Json>)
    ensures forall j :: 0 <= j < |Aliases| ==>
      (Aliases[j] in WithAliases(paths, |Aliases|) && WithAliases(paths, |Aliases|)[Aliases[j]] == Target)
    ensures forall key :: key !in Aliases ==>
      (key in WithAliases(paths, |Aliases|) <==> key in paths)
      && (key in paths ==> WithAliases(paths, |Aliases|)[key] == paths[key])
  {
    WithBothAliases(paths);
  }

  /**
   * After an update, `compilerOptions.paths` maps both aliases to `Target`,
   * and every other key at every level keeps its value.
   */
  lemma EnsuredSetsAliases(config: Option<Json>)
    requires Ensured(config).Updated?
    ensures var top := Ensured(config).data;
      && top.JObject? && CompilerOptions in top.fields
      && top.fields[CompilerOptions].JObject? && Paths in top.fields[CompilerOptions].fields
      && top.fields[CompilerOptions].fields[Paths].JObject?
      && forall j :: 0 <= j < |Aliases| ==>
           Aliases[j] in top.fields[CompilerOptions].fields[Paths].fields
           && top.fields[CompilerOptions].fields[Paths].fields[Aliases[j]] == Target
  {
    var compiler := MemberOrEmpty(config.value.fields, CompilerOptions);
    WithAliasesEffect(MemberOrEmpty(compiler.fields, Paths).fields);
  }

  lemma EnsuredKeepsOthers(config: Option<Json>)
    requires Ensured(config).Updated?
    ensures var before, after := config.value.fields, Ensured(config).data.fields;
      && (forall key :: key != CompilerOptions ==>
            (key in after <==> key in before) && (key in before ==> after[key] == before[key]))
      && var c, c' := MemberOrEmpty(before, CompilerOptions).fields, after[CompilerOptions].fields;
         && (forall key :: key != Paths ==> (key in c' <==> key in c) && (key in c ==> c'[key] == c[key]))
         && var p, p' := MemberOrEmpty(c, Paths).fields, c'[Paths].fields;
            forall key :: key !in Aliases ==> (key in p' <==> key in p) && (key in p ==> p'[key] == p[key])
  {
    var compiler := MemberOrEmpty(config.value.fields, CompilerOptions);
    WithAliasesEffect(MemberOrEmpty(compiler.fields, Paths).fields);
  }

  /** The function crashes exactly when some level that must be an object is not one. */
  lemma CrashExactly(config: Option<Json>)
    requires config.Some?
    ensures Ensured(config) == Crash <==>
      || !config.value.JObject?
      || !MemberOrEmpty(config.value.fields, CompilerOptions).JObject?
      || !MemberOrEmpty(MemberOrEmpty(config.value.fields, CompilerOptions).fields, Paths).JObject?
  {
  }

  /** A second run on the rewritten document changes nothing and reports no change. */
  lemma EnsuredIdempotent(config: Option<Json>)
    requires Ensured(config).Updated?
    ensures Ensured(Some(Ensured(config).data)) == Updated(Ensured(config).data, false)
  {
    var data := Ensured(config).data;
    EnsuredSetsAliases(config);
    var paths := data.fields[CompilerOptions].fields[Paths].fields;
    assert !NeedsUpdate(paths);
    assert WithAliases(paths, |Aliases|) == paths by {
      WithBothAliases(paths);
      assert Aliases[0] in paths && Aliases[1] in paths;
    }
    assert data.fields[CompilerOptions].fields[Paths := JObject(paths)] == data.fields[CompilerOptions].fields;
    assert data.fields[CompilerOptions := JObject(data.fields[CompilerOptions].fields)] == data.fields;
  }
}
