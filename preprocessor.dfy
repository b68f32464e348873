/** The Chinese script-variant preprocessor: building it from an option bag, and the pass
    it runs over a nested key/value store, which writes, next to every key path ending in
    the `from` segment, the sibling path ending in the `to` segment holding the converted
    value. */
module Preprocessor {
  import opened Wrappers
  import opened YamlOptions
  import opened NestedKeyValues

  /** Conversion direction (`SimplifiedToTranditonal` and `TranditionalToSimplified`). */
  datatype Mode = SimplifiedToTraditional | TraditionalToSimplified

  /** The two conversion routines of the gojianfan library, `S2T` and `T2S`. Their tables
      are not modelled: every property below holds whatever these two functions are. */
  datatype Jianfan = Jianfan(s2t: string -> string, t2s: string -> string)

  /** Lower-casing of one character (`strings.ToLower`), for the ASCII letters. */
  function LowerChar(ch: char): char
  {
    if 'A' <= ch <= 'Z' then (ch as int - 'A' as int + 'a' as int) as char else ch
  }

  function ToLower(s: string): (r: string)
    ensures |r| == |s|
    ensures forall i :: 0 <= i < |s| ==> r[i] == LowerChar(s[i])
  {
    if s == [] then [] else ToLower(s[..|s| - 1]) + [LowerChar(s[|s| - 1])]
  }

  /** The spellings of the mode option that select simplified-to-traditional: "s2t" in
      any mix of letter cases. */
  predicate IsS2TSpelling(mode: string)
  {
    |mode| == 3 && mode[0] in "sS" && mode[1] == '2' && mode[2] in "tT"
  }

  /** The mode test is case-insensitive and nothing else. */
  lemma ModeSpellings(mode: string)
    ensures ToLower(mode) == "s2t" <==> IsS2TSpelling(mode)
  {
  }

  /** The transformer's configuration; the labels are kept exactly as given. */
  datatype ChineseTransformer = ChineseTransformer(mode: Mode, fromLabel: string, toLabel: string)
  {
    /** `transform`: converts one value in the configured direction. */
    function Transform(tables: Jianfan, text: string): string
    {
      if mode == SimplifiedToTraditional then tables.s2t(text) else tables.t2s(text)
    }

    /** `getPreprocessorFunc`: the pass configured by this transformer. */
    function GetPreprocessorFunc(): (f: PreprocessorFunc)
      ensures f.transformer == this
    {
      ChineseConversion(this)
    }
  }

  /** The transformer reads `mode`, `from` and `to` as strings once all three are present
      (the source panics otherwise); this is what callers must guarantee. */
  predicate StringTyped(o: YAMLOption)
  {
    "mode" in o.values && "from" in o.values && "to" in o.values ==>
      o.values["mode"].Str? && o.values["from"].Str? && o.values["to"].Str?
  }

  predicate HasAllOptions(o: YAMLOption)
  {
    "mode" in o.values && "from" in o.values && "to" in o.values
  }

  /** `optionToChineseTransformer`: looks up `mode`, `from` and `to` in that order and
      fails with the first missing one; otherwise the direction is simplified-to-traditional
      exactly for a case-insensitive "s2t", and the labels are copied verbatim. */
  function OptionToChineseTransformer(o: YAMLOption): (r: Result<ChineseTransformer, OptionError>)
    requires StringTyped(o)
    ensures r.Ok? <==> HasAllOptions(o)
    ensures "mode" !in o.values ==> r == Err(MissingOption("mode"))
    ensures "mode" in o.values && "from" !in o.values ==> r == Err(MissingOption("from"))
    ensures "mode" in o.values && "from" in o.values && "to" !in o.values ==> r == Err(MissingOption("to"))
    ensures r.Ok? ==> r.value.fromLabel == o.values["from"].s && r.value.toLabel == o.values["to"].s
    ensures r.Ok? ==> (r.value.mode == SimplifiedToTraditional <==> IsS2TSpelling(o.values["mode"].s))
  {
    match o.Get("mode")
    case Err(e) => Err(e)
    case Ok(mode) =>
      match o.Get("from")
      case Err(e) => Err(e)
      case Ok(fromValue) =>
        match o.Get("to")
        case Err(e) => Err(e)
        case Ok(toValue) =>
          ModeSpellings(mode.s);
          var m := if ToLower(mode.s) != "s2t" then TraditionalToSimplified else SimplifiedToTraditional;
          Ok(ChineseTransformer(m, fromValue.s, toValue.s))
  }

  /** `optionToChinesePreprocessorFunc`: fails exactly when building the transformer fails,
      with its error; otherwise yields the pass of that transformer. */
  function OptionToChinesePreprocessorFunc(o: YAMLOption): (r: Result<PreprocessorFunc, OptionError>)
    requires StringTyped(o)
    ensures r.Ok? <==> HasAllOptions(o)
    ensures r.Err? ==> r == Err(OptionToChineseTransformer(o).error)
    ensures r.Ok? ==> r.value.transformer == OptionToChineseTransformer(o).value
  {
    match OptionToChineseTransformer(o)
    case Err(e) => Err(e)
    case Ok(t) => Ok(t.GetPreprocessorFunc())
  }

  /** Once configured, the transformer converts with `S2T` exactly for the four
      "s2t" spellings of the mode option, and with `T2S` for every other mode string. */
  lemma ConfiguredDirection(o: YAMLOption, tables: Jianfan, text: string)
    requires StringTyped(o) && HasAllOptions(o)
    ensures OptionToChineseTransformer(o).Ok?
    ensures OptionToChineseTransformer(o).value.Transform(tables, text)
            == if IsS2TSpelling(o.values["mode"].s) then tables.s2t(text) else tables.t2s(text)
  {
  }

  // ---------------------------------------------------------------------------------
  // What the pass computes, independently of the order in which keys are visited.

  /** The paths the pass converts from: those whose last segment is the `from` label. */
  function Sources(m: map<Path, string>, c: ChineseTransformer): set<Path>
  {
    set p | p in m.Keys && Last(p) == c.fromLabel
  }

  /** The sibling paths written for the sources in `done`. */
  function Targets(c: ChineseTransformer, done: set<Path>): set<Path>
  {
    set p | p in done :: Sibling(p, c.toLabel)
  }

  /** Whether `k` is the path written for one of the sources in `done`. */
  predicate IsTargetOf(k: Path, c: ChineseTransformer, done: set<Path>)
  {
    Last(k) == c.toLabel && Sibling(k, c.fromLabel) in done
  }

  lemma SiblingOfSibling(p: Path, a: string, b: string)
    ensures Sibling(Sibling(p, a), b) == Sibling(p, b)
  {
    assert Sibling(p, a)[..|p| - 1] == p[..|p| - 1];
  }

  lemma SiblingOfLast(p: Path)
    ensures Sibling(p, Last(p)) == p
  {
  }

  lemma SiblingFacts()
    ensures forall p: Path, a, b :: Sibling(Sibling(p, a), b) == Sibling(p, b)
    ensures forall p: Path :: Sibling(p, Last(p)) == p
  {
    forall p: Path, a, b ensures Sibling(Sibling(p, a), b) == Sibling(p, b) {
      SiblingOfSibling(p, a, b);
    }
  }

  /** The store once the sources in `done` have been handled: each of their siblings holds
      the converted source value, every other path its original value. */
  function Written(m: map<Path, string>, c: ChineseTransformer, tables: Jianfan, done: set<Path>): map<Path, string>
    requires done <= Sources(m, c)
  {
    SiblingFacts();
    map k | k in m.Keys + Targets(c, done) ::
      if IsTargetOf(k, c, done) then c.Transform(tables, m[Sibling(k, c.fromLabel)]) else m[k]
  }

  /** The store after the whole pass over `m`. */
  function Converted(m: map<Path, string>, c: ChineseTransformer, tables: Jianfan): (r: map<Path, string>)
    ensures r.Keys == m.Keys + Targets(c, Sources(m, c))
    ensures forall p :: p in m && Last(p) == c.fromLabel ==>
              Sibling(p, c.toLabel) in r && r[Sibling(p, c.toLabel)] == c.Transform(tables, m[p])
    ensures forall k :: k in m && !(Last(k) == c.toLabel && Sibling(k, c.fromLabel) in m) ==> r[k] == m[k]
    ensures c.fromLabel != c.toLabel ==> forall p :: p in m && Last(p) == c.fromLabel ==> r[p] == m[p]
    ensures forall k :: k in r && k !in m ==> Last(k) == c.toLabel && Sibling(k, c.fromLabel) in m
  {
    SiblingFacts();
    Written(m, c, tables, Sources(m, c))
  }

  lemma TargetsStep(c: ChineseTransformer, done: set<Path>, p: Path)
    ensures Targets(c, done + {p}) == Targets(c, done) + {Sibling(p, c.toLabel)}
  {
  }

  /** Handling one more source `p` writes exactly its sibling, and `p` still holds its
      original value when it is handled. */
  lemma WrittenStep(m: map<Path, string>, c: ChineseTransformer, tables: Jianfan, done: set<Path>, p: Path)
    requires done <= Sources(m, c) && p in Sources(m, c) && p !in done
    ensures p in Written(m, c, tables, done) && Written(m, c, tables, done)[p] == m[p]
    ensures Written(m, c, tables, done + {p})
            == Written(m, c, tables, done)[Sibling(p, c.toLabel) := c.Transform(tables, m[p])]
  {
    var to := Sibling(p, c.toLabel);
    SiblingOfLast(p);
    SiblingOfSibling(p, c.toLabel, c.fromLabel);
    var before := Written(m, c, tables, done);
    var after := Written(m, c, tables, done + {p});
    var expected := before[to := c.Transform(tables, m[p])];
    assert !IsTargetOf(p, c, done);
    TargetsStep(c, done, p);
    assert after.Keys == expected.Keys;
    forall k | k in after.Keys ensures after[k] == expected[k] {
      if k == to {
        assert IsTargetOf(k, c, done + {p});
      } else if Last(k) == c.toLabel && Sibling(k, c.fromLabel) == p {
        SiblingOfSibling(k, c.fromLabel, c.toLabel);
        SiblingOfLast(k);
        assert false;
      } else {
        assert IsTargetOf(k, c, done + {p}) == IsTargetOf(k, c, done);
      }
    }
  }

  /** Building the sibling path as preprocessor.go:58-63 does: copy every segment but
      the last into a fresh slice, then put `segment` last. */
  method SiblingPath(keys: Path, segment: string) returns (target: Path)
    ensures target == Sibling(keys, segment)
  {
    var to := new string[|keys|];
    var lastID := |keys| - 1;
    for i := 0 to lastID
      invariant forall j :: 0 <= j < i ==> to[j] == keys[j]
    {
      to[i] := keys[i];
    }
    to[lastID] := segment;
    target := to[..];
  }

  /** The sources among the paths of `keys`. */
  ghost function SourcesIn(keys: seq<Path>, c: ChineseTransformer): set<Path>
  {
    set p | p in keys && Last(p) == c.fromLabel
  }

  lemma SourcesInStep(keys: seq<Path>, i: nat, c: ChineseTransformer)
    requires i < |keys|
    ensures SourcesIn(keys[..i + 1], c)
            == SourcesIn(keys[..i], c) + if Last(keys[i]) == c.fromLabel then {keys[i]} else {}
  {
    assert keys[..i + 1] == keys[..i] + [keys[i]];
  }

  lemma SourcesInAll(keys: seq<Path>, m: map<Path, string>, c: ChineseTransformer)
    requires forall k :: k in keys <==> k in m
    ensures SourcesIn(keys[..|keys|], c) == Sources(m, c)
  {
    assert keys[..|keys|] == keys;
  }

  /** A preprocessor function value; the only kind in this model is the Chinese pass. */
  datatype PreprocessorFunc = ChineseConversion(transformer: ChineseTransformer)
  {
    /** Runs the pass over `nkv`: it visits the key list taken before the loop, always
        reports success, and leaves the store equal to `Converted` of the old store. */
    method Apply(tables: Jianfan, nkv: NestedKeyValue) returns (err: Option<OptionError>)
      modifies nkv
      ensures err == None
      ensures nkv.entries == Converted(old(nkv.entries), transformer, tables)
    {
      var c := transformer;
      ghost var m := nkv.entries;
      var keys := nkv.GetKeys();
      ghost var done: set<Path> := {};
      var i := 0;
      while i < |keys|
        invariant 0 <= i <= |keys|
        invariant done == SourcesIn(keys[..i], c)
        invariant done <= Sources(m, c)
        invariant nkv.entries == Written(m, c, tables, done)
      {
        var key := keys[i];
        SourcesInStep(keys, i, c);
        if key[|key| - 1] == c.fromLabel {
          assert key !in keys[..i];
          WrittenStep(m, c, tables, done, key);
          var target := SiblingPath(key, c.toLabel);
          var value, exist := nkv.GetKey(key);
          if exist {
            nkv.Set(target, c.Transform(tables, value));
          }
          done := done + {key};
        }
        i := i + 1;
      }
      SourcesInAll(keys, m, c);
      err := None;
    }
  }

  // ---------------------------------------------------------------------------------
  // Properties of the pass.

  /** With distinct labels the pass is idempotent: a second run finds the same sources
      with the same values and rewrites the same siblings identically. */
  lemma {:induction false} ConvertedIdempotent(m: map<Path, string>, c: ChineseTransformer, tables: Jianfan)
    requires c.fromLabel != c.toLabel
    ensures Converted(Converted(m, c, tables), c, tables) == Converted(m, c, tables)
  {
    var r := Converted(m, c, tables);
    var rr := Converted(r, c, tables);
    assert Sources(r, c) == Sources(m, c);
    assert Targets(c, Sources(r, c)) <= r.Keys;
    assert rr.Keys == r.Keys;
    forall k | k in r ensures rr[k] == r[k] {
      if Last(k) == c.toLabel && Sibling(k, c.fromLabel) in r {
        var p := Sibling(k, c.fromLabel);
        SiblingOfSibling(k, c.fromLabel, c.toLabel);
        SiblingOfLast(k);
        assert Sibling(p, c.toLabel) == k;
        assert p in m;
      }
    }
  }

  /** The paths the pass creates never end in the `from` label, so visiting them would
      change nothing: taking the key list before the loop is not observable. */
  lemma CreatedPathsAreNotSources(m: map<Path, string>, c: ChineseTransformer, tables: Jianfan)
    ensures forall k :: k in Converted(m, c, tables) && k !in m ==> Last(k) != c.fromLabel
  {
    forall k | k in Converted(m, c, tables) && k !in m ensures Last(k) != c.fromLabel {
      if Last(k) == c.fromLabel {
        SiblingOfLast(k);
      }
    }
  }

  /** A store holding one source path gains exactly its sibling, holding the converted
      value; the source keeps its value. */
  lemma SingleSource(p: Path, v: string, c: ChineseTransformer, tables: Jianfan)
    requires Last(p) == c.fromLabel != c.toLabel
    ensures Converted(map[p := v], c, tables) == map[p := v, Sibling(p, c.toLabel) := c.Transform(tables, v)]
  {
    var m := map[p := v];
    assert Sources(m, c) == {p};
    assert Targets(c, {p}) == {Sibling(p, c.toLabel)};
  }

  /** A store in which no path ends in the `from` label is left as it is. */
  lemma NoSource(m: map<Path, string>, c: ChineseTransformer, tables: Jianfan)
    requires forall p :: p in m ==> Last(p) != c.fromLabel
    ensures Converted(m, c, tables) == m
  {
    assert Sources(m, c) == {};
    assert Targets(c, {}) == {};
  }

  /** The option bag {mode: s2t, from: zh-CN, to: zh-TW} configures simplified-to-
      traditional conversion from the zh-CN label to the zh-TW label. */
  lemma ScenarioConfiguration()
    ensures OptionToChinesePreprocessorFunc(YAMLOption(map["mode" := Str("s2t"), "from" := Str("zh-CN"), "to" := Str("zh-TW")]))
            == Ok(ChineseConversion(ChineseTransformer(SimplifiedToTraditional, "zh-CN", "zh-TW")))
  {
    assert ToLower("s2t") == "s2t";
  }

  /** With that configuration, the pass matches the LAST segment of a path: a leaf at
      greeting/zh-CN gains a sibling greeting/zh-TW holding its traditional form and keeps
      its own value, while a leaf at zh-CN/greeting is left alone. */
  lemma ScenarioLocaleLast(tables: Jianfan, v: string, greeting: string)
    requires greeting != "zh-CN"
    ensures
      var c := ChineseTransformer(SimplifiedToTraditional, "zh-CN", "zh-TW");
      && Converted(map[[greeting, "zh-CN"] := v], c, tables)
         == map[[greeting, "zh-CN"] := v, [greeting, "zh-TW"] := tables.s2t(v)]
      && Converted(map[["zh-CN", greeting] := v], c, tables) == map[["zh-CN", greeting] := v]
  {
    var c := ChineseTransformer(SimplifiedToTraditional, "zh-CN", "zh-TW");
    var src: Path := [greeting, "zh-CN"];
    assert Sibling(src, c.toLabel) == [greeting, "zh-TW"];
    SingleSource(src, v, c, tables);
    var other: Path := ["zh-CN", greeting];
    NoSource(map[other := v], c, tables);
  }
}
