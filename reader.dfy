/** The sequential part of the source reader: the shapes it decodes, the rule that tells
    the outline file from the fragment files, the choice of the fragment files among the
    globbed paths, and the two parse steps with their error paths. */
module Reader {
  import opened Wrappers
  import opened YamlOptions
  import opened NestedKeyValues

  // ---------------------------------------------------------------------------------
  // Decoded shapes.

  /** A rendering target of an output declaration (the fields of `BasicMessengerConfig`
      other than the translations it carries). */
  datatype MessengerConfig = MessengerConfig(messengerType: string, name: string, locale: string, fragmentName: string)

  datatype PreprocessorConfig = PreprocessorConfig(preprocessorType: string, options: YAMLOption)

  datatype OutputConfig = OutputConfig(selectors: seq<string>, templates: seq<MessengerConfig>)

  /** The outline: version, preprocessor declarations, output declarations. */
  datatype Outline = Outline(version: string, preprocessors: seq<PreprocessorConfig>, output: seq<OutputConfig>)

  /** A decoded fragment, represented by its leaves. */
  type YAMLMap = map<Path, string>

  /** One parsed fragment file and the path it was read from. */
  datatype PartialTranslation = PartialTranslation(path: string, data: YAMLMap)

  newtype byte = x: int | 0 <= x < 256

  type Bytes = seq<byte>

  // ---------------------------------------------------------------------------------
  // Slash-separated paths (`filepath.Base`, `filepath.Ext`) and `strings.TrimRight`.

  const Separator: char := '/'

  /** The reserved base name of the outline file. */
  const OutlineName: string := "diplomat"

  function StripTrailingSeparators(s: string): (r: string)
    ensures r <= s
    ensures r == [] || r[|r| - 1] != Separator
    ensures forall i :: |r| <= i < |s| ==> s[i] == Separator
  {
    if s != [] && s[|s| - 1] == Separator then StripTrailingSeparators(s[..|s| - 1]) else s
  }

  /** The characters after the last separator. */
  function LastElement(s: string): (r: string)
    ensures Separator !in r
  {
    if s == [] || s[|s| - 1] == Separator then [] else LastElement(s[..|s| - 1]) + [s[|s| - 1]]
  }

  /** The last element is the suffix of `s` after its last separator: a suffix without
      separators, preceded by a separator unless it is all of `s`. */
  lemma {:induction false} LastElementShape(s: string)
    ensures var r := LastElement(s);
      && |r| <= |s| && s[|s| - |r|..] == r
      && (|r| < |s| ==> s[|s| - |r| - 1] == Separator)
  {
    if s != [] && s[|s| - 1] != Separator {
      var prev := s[..|s| - 1];
      LastElementShape(prev);
      var r, n := LastElement(prev), |s|;
      assert LastElement(s) == r + [s[n - 1]];
      assert s[n - |r| - 1..] == s[n - |r| - 1..n - 1] + [s[n - 1]];
      assert s[n - |r| - 1..n - 1] == prev[|prev| - |r|..];
      if |r| + 1 < n {
        assert s[n - |r| - 2] == prev[|prev| - |r| - 1];
      }
    }
  }

  /** `filepath.Base`: "." for the empty path; otherwise trailing separators are dropped,
      a path of separators only gives "/", and any other gives its last element. */
  function Base(path: string): (b: string)
    ensures b != []
    ensures b == "." || b == [Separator] || Separator !in b
  {
    if path == "" then "."
    else
      var t := StripTrailingSeparators(path);
      if t == "" then [Separator] else LastElement(t)
  }

  /** `filepath.Ext`: the suffix of the whole path from the last '.' of its last element,
      or "" when that element has no '.' (in particular when the path ends in '/'). */
  function Ext(path: string): string
  {
    if path == [] || path[|path| - 1] == Separator then []
    else if path[|path| - 1] == '.' then "."
    else
      var e := Ext(path[..|path| - 1]);
      if e == [] then [] else e + [path[|path| - 1]]
  }

  /** What `Ext` returns: a suffix of the path that is either empty or starts with the
      only '.' it contains and holds no separator; it is empty exactly when the last
      element of the path has no '.'. */
  lemma {:induction false} ExtShape(path: string)
    ensures var e := Ext(path);
      && |e| <= |path| && path[|path| - |e|..] == e
      && (e == [] || (e[0] == '.' && '.' !in e[1..] && Separator !in e))
      && (e == [] <==> '.' !in LastElement(path))
  {
    if path != [] && path[|path| - 1] != Separator && path[|path| - 1] != '.' {
      var prev := path[..|path| - 1];
      ExtShape(prev);
      var e := Ext(prev);
      var last := path[|path| - 1];
      assert LastElement(path) == LastElement(prev) + [last];
      if e != [] {
        assert Ext(path) == e + [last];
        assert (e + [last])[1..] == e[1..] + [last];
        assert path[|path| - |e| - 1..] == prev[|prev| - |e|..] + [last];
      }
    }
  }

  /** `strings.TrimRight`: drops every trailing character that occurs in `cutset` (a set of
      characters, not a suffix); an empty cutset drops nothing. The three properties below
      determine the result (see `TrimRightUnique`). */
  function TrimRight(s: string, cutset: string): (r: string)
    ensures r <= s
    ensures r == [] || r[|r| - 1] !in cutset
    ensures forall i :: |r| <= i < |s| ==> s[i] in cutset
  {
    if s != [] && s[|s| - 1] in cutset then TrimRight(s[..|s| - 1], cutset) else s
  }

  lemma TrimRightUnique(s: string, cutset: string, t: string)
    requires t <= s
    requires t == [] || t[|t| - 1] !in cutset
    requires forall i :: |t| <= i < |s| ==> s[i] in cutset
    ensures TrimRight(s, cutset) == t
  {
  }

  // ---------------------------------------------------------------------------------
  // Outline-vs-fragment classification.

  /** `isOutlineFile`: the base name with every trailing character that occurs in the
      extension trimmed off equals "diplomat". */
  predicate IsOutlineFile(name: string)
  {
    TrimRight(Base(name), Ext(name)) == OutlineName
  }

  /** Exactly the names whose base name is "diplomat" followed only by characters of the
      extension, provided the extension has no 't' (else the final 't' of "diplomat" is
      trimmed too). */
  lemma OutlineCharacterization(name: string)
    ensures IsOutlineFile(name) <==>
      var b, e := Base(name), Ext(name);
      && OutlineName <= b
      && (forall i :: |OutlineName| <= i < |b| ==> b[i] in e)
      && 't' !in e
  {
    var b, e := Base(name), Ext(name);
    if OutlineName <= b && (forall i :: |OutlineName| <= i < |b| ==> b[i] in e) && 't' !in e {
      TrimRightUnique(b, e, OutlineName);
    }
  }

  /** A name without a final separator has its extension inside its base name. */
  lemma {:induction false} ExtWithinLastElement(s: string)
    requires s != [] && s[|s| - 1] != Separator
    ensures Ext(s) == Ext(LastElement(s))
  {
    var n := |s|;
    var l := LastElement(s);
    var prev := s[..n - 1];
    assert l == LastElement(prev) + [s[n - 1]];
    assert l[..|l| - 1] == LastElement(prev);
    if s[n - 1] != '.' && prev != [] && prev[|prev| - 1] != Separator {
      ExtWithinLastElement(prev);
    }
  }

  lemma ExtOfBase(name: string)
    requires name != [] && name[|name| - 1] != Separator
    ensures Ext(name) == Ext(Base(name))
  {
    ExtWithinLastElement(name);
  }

  /** For names without a trailing separator the classification depends on the base name
      only, wherever the file lives. */
  lemma SameBaseSameClassification(a: string, b: string)
    requires a != [] && a[|a| - 1] != Separator
    requires b != [] && b[|b| - 1] != Separator
    requires Base(a) == Base(b)
    ensures IsOutlineFile(a) <==> IsOutlineFile(b)
  {
    ExtOfBase(a);
    ExtOfBase(b);
  }

  lemma {:induction false} LastElementOfPlain(s: string)
    requires Separator !in s
    ensures LastElement(s) == s
  {
    if s != [] {
      LastElementOfPlain(s[..|s| - 1]);
    }
  }

  lemma {:induction false} LastElementAfterSeparator(dir: string, s: string)
    requires Separator !in s
    ensures LastElement(dir + [Separator] + s) == s
  {
    if s != [] {
      assert (dir + [Separator] + s)[..|dir| + |s|] == dir + [Separator] + s[..|s| - 1];
      LastElementAfterSeparator(dir, s[..|s| - 1]);
    }
  }

  /** The extension of a path ending in '.' followed by a plain word is that suffix. */
  lemma {:induction false} ExtOfDotted(stem: string, word: string)
    requires '.' !in word && Separator !in word
    ensures Ext(stem + "." + word) == "." + word
  {
    if word != [] {
      var w := word[..|word| - 1];
      assert (stem + "." + word)[..|stem + "." + word| - 1] == stem + "." + w;
      ExtOfDotted(stem, w);
      assert "." + w + [word[|word| - 1]] == "." + word;
    }
  }

  /** A name without separators, of the shape stem.word, is its own base name and has
      extension .word. */
  lemma PlainDotted(stem: string, word: string)
    requires Separator !in stem && '.' !in word && Separator !in word
    ensures Base(stem + "." + word) == stem + "." + word
    ensures Ext(stem + "." + word) == "." + word
  {
    var name := stem + "." + word;
    assert Separator !in name;
    assert name[|name| - 1] != Separator;
    LastElementOfPlain(name);
    ExtOfDotted(stem, word);
  }

  /** Whether a separator-free name stem.word is the outline is decided by trimming the
      characters of .word off its end. */
  lemma PlainDottedClassification(stem: string, word: string)
    requires Separator !in stem && '.' !in word && Separator !in word
    ensures IsOutlineFile(stem + "." + word) <==> TrimRight(stem + "." + word, "." + word) == OutlineName
  {
    PlainDotted(stem, word);
  }

  /** "diplomat.yaml" itself is classified as the outline. */
  lemma OutlineFileNameIsOutline()
    ensures IsOutlineFile(OutlineName + "." + "yaml")
  {
    PlainDottedClassification(OutlineName, "yaml");
    TrimRightUnique(OutlineName + "." + "yaml", "." + "yaml", OutlineName);
  }

  lemma BaseAfterSeparator(dir: string, file: string)
    requires file != [] && Separator !in file
    ensures Base(dir + [Separator] + file) == file
  {
    var name := dir + [Separator] + file;
    assert name[|name| - 1] == file[|file| - 1];
    assert StripTrailingSeparators(name) == name;
    LastElementAfterSeparator(dir, file);
  }

  lemma DottedInDirectory(dir: string, stem: string, word: string)
    requires Separator !in stem && '.' !in word && Separator !in word
    ensures Base(dir + "/" + stem + "." + word) == stem + "." + word
    ensures Ext(dir + "/" + stem + "." + word) == "." + word
  {
    var file := stem + "." + word;
    assert Separator !in file;
    assert dir + "/" + stem + "." + word == dir + [Separator] + file;
    BaseAfterSeparator(dir, file);
    ExtOfDotted(dir + "/" + stem, word);
  }

  /** The outline is read from "<dir>/diplomat.yaml", and the glob returns paths of that
      shape: whatever the directory, that path is classified as the outline. */
  lemma OutlineFileIsOutline(dir: string)
    ensures IsOutlineFile(dir + "/" + OutlineName + "." + "yaml")
  {
    DottedInDirectory(dir, OutlineName, "yaml");
    TrimRightUnique(OutlineName + "." + "yaml", "." + "yaml", OutlineName);
  }

  /** With a trailing separator the base name survives but the extension is lost, so
      nothing is trimmed: such a name is the outline only if its base is "diplomat". */
  lemma TrailingSeparator(name: string)
    requires name != [] && Separator !in name
    ensures Base(name + "/") == Base(name) == name
    ensures IsOutlineFile(name + "/") <==> name == OutlineName
  {
    LastElementOfPlain(name);
    assert (name + "/")[..|name|] == name;
    assert StripTrailingSeparators(name + "/") == name;
    assert Ext(name + "/") == "";
  }

  /** So the base name alone does not decide: "diplomat.yaml" is the outline but
      "diplomat.yaml/", with the same base name, is not. */
  lemma TrailingSeparatorChangesClassification()
    ensures Base(OutlineName + "." + "yaml" + "/") == Base(OutlineName + "." + "yaml")
    ensures IsOutlineFile(OutlineName + "." + "yaml")
    ensures !IsOutlineFile(OutlineName + "." + "yaml" + "/")
  {
    var file := OutlineName + "." + "yaml";
    assert file != OutlineName by { assert |file| != |OutlineName|; }
    TrailingSeparator(file);
    OutlineFileNameIsOutline();
  }

  /** A name without an extension has nothing trimmed: it is the outline exactly when its
      base name is "diplomat". */
  lemma NoExtension(name: string)
    requires Ext(name) == ""
    ensures IsOutlineFile(name) <==> Base(name) == OutlineName
  {
  }

  /** The trim works on a character set: "diplomat" followed by any characters of the
      extension and then the extension is taken for the outline. */
  lemma ExtensionCharactersAfterStem(extra: string, word: string)
    requires Separator !in extra && '.' !in word && Separator !in word && 't' !in word
    requires forall i :: 0 <= i < |extra| ==> extra[i] in "." + word
    ensures IsOutlineFile(OutlineName + extra + "." + word)
  {
    ClassifiedAsStem(OutlineName, extra, word);
  }

  /** A separator-free name stem+extra+"."+word trims down to `stem` when `extra` only holds
      characters of "."+word and `stem` does not end in one. */
  lemma ClassifiedAsStem(stem: string, extra: string, word: string)
    requires Separator !in stem && Separator !in extra && '.' !in word && Separator !in word
    requires stem == [] || stem[|stem| - 1] !in "." + word
    requires forall i :: 0 <= i < |extra| ==> extra[i] in "." + word
    ensures var name := stem + extra + "." + word;
      TrimRight(Base(name), Ext(name)) == stem
  {
    var s, cut := stem + extra, "." + word;
    assert s + "." + word == s + cut;
    NoSeparatorInConcat(stem, extra);
    PlainDotted(s, word);
    TrimToStem(stem, extra, cut);
  }

  lemma NoSeparatorInConcat(a: string, b: string)
    requires Separator !in a && Separator !in b
    ensures Separator !in a + b
  {
  }

  /** Trimming the characters of `cut` off stem+extra+cut, where `extra` only holds
      characters of `cut` and `stem` does not end in one, leaves `stem`. */
  lemma TrimToStem(stem: string, extra: string, cut: string)
    requires stem == [] || stem[|stem| - 1] !in cut
    requires forall i :: 0 <= i < |extra| ==> extra[i] in cut
    ensures TrimRight(stem + extra + cut, cut) == stem
  {
    var name := stem + extra + cut;
    forall i | |stem| <= i < |name| ensures name[i] in cut {
      if i < |stem| + |extra| {
        assert name[i] == extra[i - |stem|];
      } else {
        assert name[i] == cut[i - |stem| - |extra|];
      }
    }
    TrimRightUnique(name, cut, stem);
  }

  /** An extension holding 't' trims the final 't' of "diplomat" as well. */
  lemma ExtensionWithT(word: string)
    requires '.' !in word && Separator !in word && 't' in word
    ensures !IsOutlineFile(OutlineName + "." + word)
  {
    PlainDottedClassification(OutlineName, word);
    assert 't' in "." + word;
  }

  /** Instances: "diplomata.yaml" and "diplomat.yaml.yaml" are taken for the outline;
      "diplomat.t" and "diplomat.txt" are not. */
  lemma CutsetQuirk()
    ensures IsOutlineFile(OutlineName + "a" + "." + "yaml")
    ensures IsOutlineFile(OutlineName + ".yaml" + "." + "yaml")
    ensures !IsOutlineFile(OutlineName + "." + "t")
    ensures !IsOutlineFile(OutlineName + "." + "txt")
  {
    ExtensionCharactersAfterStem("a", "yaml");
    ExtensionCharactersAfterStem(".yaml", "yaml");
    ExtensionWithT("t");
    ExtensionWithT("txt");
  }

  // ---------------------------------------------------------------------------------
  // Choosing the fragment files.

  /** The elements of `s` for which `drop` is false, in their order in `s`. */
  function Without(s: seq<string>, drop: string -> bool): (r: seq<string>)
    ensures |r| <= |s|
    ensures forall x :: x in r <==> x in s && !drop(x)
  {
    if s == [] then []
    else Without(s[..|s| - 1], drop) + if drop(s[|s| - 1]) then [] else [s[|s| - 1]]
  }

  /** Filtering keeps relative order: it distributes over concatenation. */
  lemma {:induction false} WithoutAppend(a: seq<string>, b: seq<string>, drop: string -> bool)
    ensures Without(a + b, drop) == Without(a, drop) + Without(b, drop)
  {
    if b == [] {
      assert a + b == a;
    } else {
      var init, x := b[..|b| - 1], b[|b| - 1];
      var tail := if drop(x) then [] else [x];
      assert (a + b)[..|a + b| - 1] == a + init && (a + b)[|a + b| - 1] == x;
      calc {
        Without(a + b, drop);
        Without(a + init, drop) + tail;
        { WithoutAppend(a, init, drop); }
        (Without(a, drop) + Without(init, drop)) + tail;
        Without(a, drop) + (Without(init, drop) + tail);
        Without(a, drop) + Without(b, drop);
      }
    }
  }

  lemma WithoutPrefixStep(s: seq<string>, i: nat, drop: string -> bool)
    requires i < |s|
    ensures Without(s[..i + 1], drop) == Without(s[..i], drop) + if drop(s[i]) then [] else [s[i]]
  {
    assert s[..i + 1][..i] == s[..i];
  }

  /** The globbed paths that are not the outline, in glob order: every non-outline path
      of `paths`, and no outline path. */
  function Fragments(paths: seq<string>): (r: seq<string>)
    ensures forall p :: p in r <==> p in paths && !IsOutlineFile(p)
  {
    Without(paths, IsOutlineFile)
  }

  /** Fragment selection is path by path: the fragments of a concatenation of glob results
      are the fragments of each, in the same order. */
  lemma FragmentsAppend(a: seq<string>, b: seq<string>)
    ensures Fragments(a + b) == Fragments(a) + Fragments(b)
  {
    WithoutAppend(a, b, IsOutlineFile);
  }

  /** The loop over the globbed paths: skips the outline and starts one fragment parse per
      remaining path, in glob order. */
  method SelectFragments(paths: seq<string>) returns (launched: seq<string>)
    ensures launched == Fragments(paths)
  {
    launched := [];
    for i := 0 to |paths|
      invariant launched == Fragments(paths[..i])
    {
      var p := paths[i];
      WithoutPrefixStep(paths, i, IsOutlineFile);
      if IsOutlineFile(p) {
        continue;
      }
      launched := launched + [p];
    }
    assert paths[..|paths|] == paths;
  }

  // ---------------------------------------------------------------------------------
  // Parsing. Reading a file and decoding YAML are foreign calls, passed in as functions.

  /** `parseOutline`: a read failure or a decode failure is returned as is; otherwise the
      decoded outline. */
  function ParseOutline<E>(name: string, readFile: string -> Result<Bytes, E>,
                           unmarshal: Bytes -> Result<Outline, E>): (r: Result<Outline, E>)
    ensures r.Ok? <==> readFile(name).Ok? && unmarshal(readFile(name).value).Ok?
    ensures readFile(name).Err? ==> r == Err(readFile(name).error)
    ensures readFile(name).Ok? && unmarshal(readFile(name).value).Err? ==>
              r == Err(unmarshal(readFile(name).value).error)
    ensures r.Ok? ==> r.value == unmarshal(readFile(name).value).value
  {
    match readFile(name)
    case Err(e) => Err(e)
    case Ok(data) =>
      match unmarshal(data)
      case Err(e) => Err(e)
      case Ok(outline) => Ok(outline)
  }

  /** `parsePartialTranslation`: on success the translation records exactly the path it
      was read from; a read or decode failure yields that error and no translation. */
  function ParsePartialTranslation<E>(path: string, readFile: string -> Result<Bytes, E>,
                                      unmarshal: Bytes -> Result<YAMLMap, E>): (r: Result<PartialTranslation, E>)
    ensures r.Ok? <==> readFile(path).Ok? && unmarshal(readFile(path).value).Ok?
    ensures readFile(path).Err? ==> r == Err(readFile(path).error)
    ensures readFile(path).Ok? && unmarshal(readFile(path).value).Err? ==>
              r == Err(unmarshal(readFile(path).value).error)
    ensures r.Ok? ==> r.value.path == path && r.value.data == unmarshal(readFile(path).value).value
  {
    match readFile(path)
    case Err(e) => Err(e)
    case Ok(data) =>
      match unmarshal(data)
      case Err(e) => Err(e)
      case Ok(t) => Ok(PartialTranslation(path, t))
  }
}
