// validateString and validateStringSchema: string values against the length and the patterns of their YANG type.
module StringType {
  import opened Wrappers
  import opened PatternSyntax
  import opened FixYangRegexp
  import opened PatternTokens
  import opened PatternMeaning

  class Schema {
    const isString: bool            // Type.Kind == Ystring
    const patterns: seq<string>
    const lengths: seq<(nat, nat)>  // allowed ranges; empty when the type has no length statement
    var isSchemaValidated: bool

    constructor (isString: bool, patterns: seq<string>, lengths: seq<(nat, nat)>)
      ensures this.isString == isString && this.patterns == patterns && this.lengths == lengths && !isSchemaValidated
    {
      this.isString, this.patterns, this.lengths, isSchemaValidated := isString, patterns, lengths, false;
    }
  }

  // regexp.MatchString, as a function that decides GoAccepts
  ghost predicate Decides(match_: (Regex, string) -> bool, t: Tables) {
    forall r, s :: match_(r, s) <==> GoAccepts(t, r, s)
  }

  predicate LengthsValid(lengths: seq<(nat, nat)>) { forall i :: 0 <= i < |lengths| ==> lengths[i].0 <= lengths[i].1 }

  predicate LengthOk(lengths: seq<(nat, nat)>, n: nat) {
    lengths == [] || exists i :: 0 <= i < |lengths| && lengths[i].0 <= n <= lengths[i].1
  }

  predicate Compiles(p: string) { ParseGo(Fix(p)).Some? }

  predicate SchemaOk(s: Schema) {
    s.isString && LengthsValid(s.lengths) && forall i :: 0 <= i < |s.patterns| ==> Compiles(s.patterns[i])
  }

  class Validator {
    var regexpCache: map<string, Regex>

    // What is cached for a pattern is what compiling its translation gives
    ghost predicate Valid()
      reads this
    {
      forall p :: p in regexpCache ==> ParseGo(Fix(p)) == Some(regexpCache[p])
    }

    constructor ()
      ensures Valid() && regexpCache == map[]
    {
      regexpCache := map[];
    }

    method Compile(p: string) returns (r: Option<Regex>)
      requires Valid()
      modifies this
      ensures Valid() && r == ParseGo(Fix(p))
      ensures old(regexpCache.Keys) <= regexpCache.Keys <= old(regexpCache.Keys) + {p}
        && (r.Some? <==> p in regexpCache)
    {
      if p in regexpCache { return Some(regexpCache[p]); }
      var go := Convert(p);
      r := ParseGo(go);
      if r.Some? { regexpCache := regexpCache[p := r.value]; }
    }

    method ValidateStringSchema(schema: Schema) returns (ok: bool)
      requires Valid() && (schema.isSchemaValidated ==> SchemaOk(schema))
      modifies this, schema
      ensures Valid() && ok == SchemaOk(schema) && (schema.isSchemaValidated <==> old(schema.isSchemaValidated) || ok)
      ensures ok && !old(schema.isSchemaValidated) ==> forall i :: 0 <= i < |schema.patterns| ==>
        schema.patterns[i] in regexpCache
    {
      hide Fix, ParseGo;
      if !schema.isString { return false; }
      if schema.isSchemaValidated { return true; }
      var i := 0;
      while i < |schema.patterns|
        invariant 0 <= i <= |schema.patterns| && Valid() && !schema.isSchemaValidated
        invariant forall k :: 0 <= k < i ==> Compiles(schema.patterns[k]) && schema.patterns[k] in regexpCache
      {
        var r := Compile(schema.patterns[i]);
        if r == None { return false; }
        i := i + 1;
      }
      ok := LengthsValid(schema.lengths);
      if ok { schema.isSchemaValidated := true; }
    }

    // value is None when it is not a Go string
    method ValidateString(schema: Schema, value: Option<string>, match_: (Regex, string) -> bool, ghost t: Tables)
      returns (ok: bool)
      requires Valid() && (schema.isSchemaValidated ==> SchemaOk(schema)) && Decides(match_, t)
      modifies this, schema
      ensures Valid() && (schema.isSchemaValidated ==> SchemaOk(schema))
      ensures ok <==> value.Some? && SchemaOk(schema) && GoValid(t, schema, value.value)
    {
      hide Fix, ParseGo, GoAccepts;
      ok := ValidateStringSchema(schema);
      if !ok || value == None { return false; }
      if !LengthOk(schema.lengths, |value.value|) { return false; }
      var i := 0;
      while i < |schema.patterns|
        invariant 0 <= i <= |schema.patterns| && Valid() && schema.isSchemaValidated
        invariant forall k :: 0 <= k < i ==> GoMatches(t, schema.patterns[k], value.value)
      {
        var p := schema.patterns[i];
        var r := Compile(p);
        if r == None || !match_(r.value, value.value) { return false; }
        i := i + 1;
      }
    }
  }

  ghost predicate GoMatches(t: Tables, p: string, value: string) {
    Compiles(p) && GoAccepts(t, ParseGo(Fix(p)).value, value)
  }

  ghost predicate GoValid(t: Tables, s: Schema, value: string) {
    LengthOk(s.lengths, |value|) && forall i :: 0 <= i < |s.patterns| ==> GoMatches(t, s.patterns[i], value)
  }

  // On good patterns the validator accepts exactly the values of the YANG type: a string whose length is in one of the
  // ranges, if there are any, and which every pattern accepts as a whole
  lemma ValidatesYang(t: Tables, s: Schema, value: string)
    requires forall i :: 0 <= i < |s.patterns| ==> Good(s.patterns[i]) && ParseYang(s.patterns[i]).Some?
    ensures SchemaOk(s) <==> s.isString && forall i :: 0 <= i < |s.lengths| ==> s.lengths[i].0 <= s.lengths[i].1
    ensures GoValid(t, s, value) <==>
      (s.lengths == [] || exists i :: 0 <= i < |s.lengths| && s.lengths[i].0 <= |value| <= s.lengths[i].1)
      && forall i :: 0 <= i < |s.patterns| ==> YangAccepts(t, ParseYang(s.patterns[i]).value, value)
  {
    hide ParseYang, ParseGo, Fix, Good, GoAccepts, YangAccepts;
    forall i | 0 <= i < |s.patterns|
      ensures Compiles(s.patterns[i])
      ensures GoMatches(t, s.patterns[i], value) <==> YangAccepts(t, ParseYang(s.patterns[i]).value, value)
    {
      FixKeepsMeaning(s.patterns[i], t, value);
    }
  }
}
