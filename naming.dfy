/**
 How the command line turns its URL argument into the manifest URL and the
 name of the output file: the package-suffix rewrite and the default
 output name derived from the URL's last path element.
 */
module Naming {
  import opened Text

  datatype Option<T> = None | Some(value: T)

  /** The extension of a manifest URL. */
  const ManifestExt := ".json"

  /** The package-file suffixes that are rewritten into manifest URLs. */
  const SplitSuffix := "_sc.pkg"
  const PatchSuffix := "-DP.pkg"
  const FirstPartSuffix := "_0.pkg"

  predicate IsPackageSuffix(suffix: string) {
    suffix == SplitSuffix || suffix == PatchSuffix || suffix == FirstPartSuffix
  }

  predicate HasPackageSuffix(url: string) {
    EndsWith(url, SplitSuffix) || EndsWith(url, PatchSuffix) || EndsWith(url, FirstPartSuffix)
  }

  /**
   The URL rewrite in `main`: a package URL loses its suffix and gets the
   manifest extension instead; any other URL is kept as it is.
   */
  function NormalizeUrl(url: string): (r: string)
    ensures HasPackageSuffix(url) ==> EndsWith(r, ManifestExt) && |r| < |url|
    ensures !HasPackageSuffix(url) ==> r == url
  {
    if EndsWith(url, SplitSuffix) then url[..|url| - 7] + ManifestExt
    else if EndsWith(url, PatchSuffix) then url[..|url| - 7] + ManifestExt
    else if EndsWith(url, FirstPartSuffix) then url[..|url| - 6] + ManifestExt
    else url
  }

  /** A package URL is rewritten to its stem followed by the manifest extension. */
  lemma NormalizeReplacesSuffix(stem: string, suffix: string)
    requires IsPackageSuffix(suffix)
    ensures NormalizeUrl(stem + suffix) == stem + ManifestExt
  {
    var url := stem + suffix;
    assert url[|url| - |suffix|..] == suffix;
    assert url[..|url| - |suffix|] == stem;
    if suffix == PatchSuffix {
      assert url[|url| - 6] == 'D';
      assert !EndsWith(url, SplitSuffix);
    } else if suffix == FirstPartSuffix {
      assert url[|url| - 6] == '_' && url[|url| - 5] == '0';
      assert !EndsWith(url, SplitSuffix);
      assert !EndsWith(url, PatchSuffix);
    }
  }

  /** A rewritten URL ends in the manifest extension, so a second rewrite changes nothing. */
  lemma NormalizeIdempotent(url: string)
    ensures NormalizeUrl(NormalizeUrl(url)) == NormalizeUrl(url)
  {
    var r := NormalizeUrl(url);
    if HasPackageSuffix(url) {
      assert r[|r| - 1] == 'n';
      assert !HasPackageSuffix(r);
    }
  }

  /** The path separator. */
  const Slash := '/'

  /** `path` with every trailing separator removed. */
  function TrimTrailingSlashes(path: string): (r: string)
    ensures r <= path
    ensures r == [] || r[|r| - 1] != Slash
    ensures forall i :: |r| <= i < |path| ==> path[i] == Slash
  {
    if path != [] && path[|path| - 1] == Slash then TrimTrailingSlashes(path[..|path| - 1]) else path
  }

  /** The characters of `path` after its last separator. */
  function LastElement(path: string): (r: string)
    ensures EndsWith(path, r)
    ensures Slash !in r
    ensures |r| < |path| ==> path[|path| - |r| - 1] == Slash
  {
    if path == [] || path[|path| - 1] == Slash then []
    else LastElement(path[..|path| - 1]) + [path[|path| - 1]]
  }

  /**
   filepath.Base with `/` as the only separator: "." for the empty path,
   "/" for a path made only of separators, otherwise the last element once
   trailing separators are removed.
   */
  function Base(path: string): (r: string)
    ensures r != []
    ensures r == [Slash] || Slash !in r
    ensures path == [] ==> r == "."
    ensures path != [] && (forall i :: 0 <= i < |path| ==> path[i] == Slash) ==> r == [Slash]
    ensures TrimTrailingSlashes(path) != [] ==> r == LastElement(TrimTrailingSlashes(path))
  {
    if path == [] then "."
    else
      var trimmed := TrimTrailingSlashes(path);
      if trimmed == [] then [Slash] else LastElement(trimmed)
  }

  /** The last element of a path is its base name. */
  lemma {:induction false} LastElementOfPath(dir: string, name: string)
    requires Slash !in name
    ensures LastElement(dir + [Slash] + name) == name
  {
    var path := dir + [Slash] + name;
    if name != [] {
      var init := name[..|name| - 1];
      assert path[..|path| - 1] == dir + [Slash] + init;
      assert path[|path| - 1] == name[|name| - 1];
      LastElementOfPath(dir, init);
      assert init + [name[|name| - 1]] == name;
    }
  }

  lemma BaseOfPath(dir: string, name: string)
    requires name != [] && Slash !in name
    ensures Base(dir + [Slash] + name) == name
  {
    var path := dir + [Slash] + name;
    assert path[|path| - 1] == name[|name| - 1];
    assert TrimTrailingSlashes(path) == path;
    LastElementOfPath(dir, name);
  }

  /** The extension the default output name is given. */
  const PackageExt := "pkg"

  /**
   The output file name: the `-o` value when it is not empty; otherwise the
   base name of the URL without its last four characters, followed by
   `pkg`. A base name shorter than four characters makes that slice fail,
   which is `None`.
   */
  function OutputName(flag: string, url: string): (r: Option<string>)
    ensures flag != "" ==> r == Some(flag)
    ensures flag == "" ==> (r.Some? <==> |Base(url)| >= 4)
    ensures flag == "" && r.Some? ==> EndsWith(r.value, PackageExt) && Slash !in r.value
    ensures flag == "" && r.Some? ==>
      |r.value| == |Base(url)| - 1 && r.value[..|r.value| - |PackageExt|] <= Base(url)
  {
    if flag != "" then Some(flag)
    else
      var base := Base(url);
      if |base| < 4 then None else Some(base[..|base| - 4] + PackageExt)
  }

  /** Without `-o`, the manifest `DIR/STEM.json` is saved as `STEM.pkg`. */
  lemma DefaultNameOfManifest(dir: string, stem: string)
    requires Slash !in stem
    ensures OutputName("", dir + [Slash] + stem + ManifestExt) == Some(stem + "." + PackageExt)
  {
    var name := stem + ManifestExt;
    assert dir + [Slash] + stem + ManifestExt == dir + [Slash] + name;
    BaseOfPath(dir, name);
    assert name[..|name| - 4] == stem + ".";
  }

  /**
   Without `-o`, a package URL `DIR/STEM` + suffix is fetched as the manifest
   `DIR/STEM.json` and saved as `STEM.pkg`.
   */
  lemma DefaultNameOfPackageUrl(dir: string, stem: string, suffix: string)
    requires Slash !in stem && IsPackageSuffix(suffix)
    ensures NormalizeUrl(dir + [Slash] + stem + suffix) == dir + [Slash] + stem + ManifestExt
    ensures OutputName("", NormalizeUrl(dir + [Slash] + stem + suffix)) == Some(stem + "." + PackageExt)
  {
    NormalizeReplacesSuffix(dir + [Slash] + stem, suffix);
    DefaultNameOfManifest(dir, stem);
  }
}
