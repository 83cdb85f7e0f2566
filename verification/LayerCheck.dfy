/** The layer lint: how it classifies files and import targets, and why the imports
    it accepts respect the layer order.  Paths are handled as the lists of
    components that `split("/")` gives; the rule's regular expressions are
    stated on those lists. */
module LayerCheck {
  import opened Prelude

  type Parts = seq<string>

  const LAYER_ORDER: seq<string> := ["types", "config", "repo", "service", "runtime", "ui"]

  /** `s.split("/")`. */
  function Split(s: string): (parts: Parts)
    ensures |parts| > 0
  {
    if s == "" then [""]
    else
      var rest := Split(s[1..]);
      if s[0] == '/' then [""] + rest else [[s[0]] + rest[0]] + rest[1..]
  }

  function Join(parts: Parts): string {
    if parts == [] then "" else if |parts| == 1 then parts[0] else parts[0] + "/" + Join(parts[1..])
  }

  /** The component list determines the path, and no component holds a slash. */
  lemma {:induction false} SplitIsFaithful(s: string)
    ensures Join(Split(s)) == s
    ensures forall i :: 0 <= i < |Split(s)| ==> '/' !in Split(s)[i]
    decreases |s|
  {
    if s != "" {
      SplitIsFaithful(s[1..]);
      var rest := Split(s[1..]);
      if s[0] == '/' {
        assert Split(s)[1..] == rest;
      } else if |rest| > 1 {
        assert Split(s)[1..] == rest[1..];
      }
    }
  }

  function IndexOf(parts: Parts, x: string): (i: nat)
    ensures i <= |parts| && (i < |parts| ==> parts[i] == x) && forall j :: 0 <= j < i ==> parts[j] != x
  {
    if parts == [] || parts[0] == x then 0 else 1 + IndexOf(parts[1..], x)
  }

  predicate CapturesAt(parts: Parts, fixed: Parts, i: nat) {
    && 1 <= i && i + |fixed| + 1 < |parts|
    && parts[i..i + |fixed|] == fixed
    && parts[i + |fixed|] != ""
  }

  /** `path.match(/\/a\/b\/([^/]+)\//)?.[1]` for the fixed components `[a, b]`: the
      leftmost match has `fixed`, then the captured component, then a slash. */
  function Capture(parts: Parts, fixed: Parts, from: nat): Option<string>
    decreases |parts| - from
  {
    if from >= |parts| then None
    else if CapturesAt(parts, fixed, from) then Some(parts[from + |fixed|])
    else Capture(parts, fixed, from + 1)
  }

  function KnownLayer(top: string): Option<string> {
    if top == "providers" || top == "utils" || top in LAYER_ORDER then Some(top) else None
  }

  function LayerOf(file: Parts): Option<string> {
    match Capture(file, ["src"], 0)
    case None => None
    case Some(top) => KnownLayer(top)
  }

  /** `LAYER_ORDER.indexOf(layer)` for a layer of the order. */
  function LayerRank(layer: string): nat {
    IndexOf(LAYER_ORDER, layer)
  }

  predicate Ranked(file: Parts) {
    LayerOf(file).Some? && LayerOf(file).value in LAYER_ORDER
  }

  function RankOf(file: Parts): nat
    requires Ranked(file)
  {
    LayerRank(LayerOf(file).value)
  }

  // ------------------------------------------------------------ the normaliser

  function Push(stack: Parts, p: string): Parts {
    if p == "" || p == "." then stack
    else if p == ".." then (if stack == [] then [] else stack[..|stack| - 1])
    else stack + [p]
  }

  function PushAll(stack: Parts, parts: Parts): Parts {
    if parts == [] then stack else Push(PushAll(stack, parts[..|parts| - 1]), parts[|parts| - 1])
  }

  function Norm(parts: Parts): Parts {
    PushAll([], parts)
  }

  /** The loop of `importTargetLayer`. */
  method Resolve(parts: Parts) returns (resolved: Parts)
    ensures resolved == Norm(parts)
  {
    resolved := [];
    for i := 0 to |parts|
      invariant resolved == Norm(parts[..i])
    {
      var p := parts[i];
      assert parts[..i + 1][..i] == parts[..i];
      if p == "" || p == "." { continue; }
      if p == ".." {
        if |resolved| > 0 {
          resolved := resolved[..|resolved| - 1];
        }
      } else {
        resolved := resolved + [p];
      }
    }
    assert parts[..|parts|] == parts;
  }

  predicate Plain(p: string) {
    p != "" && p != "." && p != ".."
  }

  predicate AllPlain(parts: Parts) {
    forall i :: 0 <= i < |parts| ==> Plain(parts[i])
  }

  lemma {:induction false} PushAllConcat(stack: Parts, a: Parts, b: Parts)
    ensures PushAll(stack, a + b) == PushAll(PushAll(stack, a), b)
    decreases |b|
  {
    if b == [] {
      assert a + b == a;
    } else {
      var init := b[..|b| - 1];
      assert (a + b)[..|a + b| - 1] == a + init;
      PushAllConcat(stack, a, init);
    }
  }

  lemma {:induction false} NormIsPlain(parts: Parts)
    ensures AllPlain(Norm(parts))
    decreases |parts|
  {
    if parts != [] {
      NormIsPlain(parts[..|parts| - 1]);
    }
  }

  lemma {:induction false} PlainIsPushed(stack: Parts, parts: Parts)
    requires AllPlain(parts)
    ensures PushAll(stack, parts) == stack + parts
    decreases |parts|
  {
    if parts == [] {
      assert stack + parts == stack;
    } else {
      var init, last := parts[..|parts| - 1], parts[|parts| - 1];
      PlainIsPushed(stack, init);
      assert stack + init + [last] == stack + parts;
    }
  }

  /** A path may be normalised part way without changing where it leads. */
  lemma NormAbsorbs(a: Parts, b: Parts)
    ensures Norm(Norm(a) + b) == Norm(a + b)
    ensures Norm(Norm(a)) == Norm(a)
  {
    NormIsPlain(a);
    PlainIsPushed([], Norm(a));
    PushAllConcat([], Norm(a), b);
    PushAllConcat([], a, b);
    assert [] + Norm(a) == Norm(a);
  }

  // ----------------------------------------------------------- import targets

  predicate Relative(spec: Parts) {
    |spec| > 1 && (spec[0] == "." || spec[0] == "..")
  }

  /** `currentFile.replace(/\/[^/]+$/, "")`. */
  function Directory(file: Parts): Parts {
    if |file| > 1 && file[|file| - 1] != "" then file[..|file| - 1] else file
  }

  function Target(file: Parts, spec: Parts): Parts {
    Norm(Directory(file) + spec)
  }

  function ImportTargetLayer(file: Parts, spec: Parts): Option<string> {
    if !Relative(spec) then None
    else
      var resolved := Target(file, spec);
      var src := IndexOf(resolved, "src");
      if src + 1 >= |resolved| then None else KnownLayer(resolved[src + 1])
  }

  /** `g` is the absolute path of the file that `spec` in `file` leads to; the last
      component may differ in its extension. */
  ghost predicate LeadsTo(file: Parts, spec: Parts, g: Parts) {
    var target := Target(file, spec);
    && |g| == |target| + 1 && g[0] == "" && AllPlain(g[1..])
    && |target| > 0 && g[1..|target|] == target[..|target| - 1]
  }

  /** At least two components follow the first `src`. */
  predicate DeepInSrc(g: Parts) {
    IndexOf(g, "src") + 2 < |g|
  }

  lemma {:induction false} CaptureSkips(parts: Parts, fixed: Parts, from: nat, n: nat)
    requires from <= n <= |parts| && forall i :: from <= i < n ==> !CapturesAt(parts, fixed, i)
    ensures Capture(parts, fixed, from) == Capture(parts, fixed, n)
    decreases n - from
  {
    if from < n {
      CaptureSkips(parts, fixed, from + 1, n);
    }
  }

  lemma CaptureStarts(parts: Parts, fixed: Parts, i: nat)
    requires |fixed| > 0
    ensures CapturesAt(parts, fixed, i) ==> i + |fixed| + 1 < |parts| && parts[i] == fixed[0]
  {
    if CapturesAt(parts, fixed, i) {
      assert parts[i] == parts[i..i + |fixed|][0];
    }
  }

  /** In an absolute path without empty components the match is at the first `src`. */
  lemma LayerOfAbsolute(g: Parts)
    requires |g| > 0 && g[0] == "" && AllPlain(g[1..])
    ensures LayerOf(g) == if DeepInSrc(g) then KnownLayer(g[IndexOf(g, "src") + 1]) else None
  {
    var src := IndexOf(g, "src");
    forall i | 0 <= i < |g| && CapturesAt(g, ["src"], i)
      ensures src <= i && DeepInSrc(g)
    {
      CaptureStarts(g, ["src"], i);
    }
    if DeepInSrc(g) {
      assert g[src + 1] == g[1..][src] && g[src..src + 1] == ["src"];
      assert CapturesAt(g, ["src"], src);
      CaptureSkips(g, ["src"], 0, src);
    } else {
      CaptureSkips(g, ["src"], 0, |g|);
    }
  }

  lemma FirstSrcAgrees(r: Parts, g: Parts)
    requires |r| > 0 && |g| == |r| + 1 && g[0] == "" && g[1..|r|] == r[..|r| - 1]
    requires DeepInSrc(g)
    ensures IndexOf(g, "src") == IndexOf(r, "src") + 1
    ensures g[IndexOf(g, "src") + 1] == r[IndexOf(r, "src") + 1]
  {
    var n := |r| - 1;
    assert forall i :: 0 <= i < n ==> g[i + 1] == g[1..|r|][i] == r[i];
    var i := IndexOf(g, "src");
    assert r[i - 1] == "src";
  }

  /** An import target is classified as the target file classifies itself whenever at
      least two components follow the first `src`; otherwise the file has no layer. */
  lemma TargetLayerIsFileLayer(file: Parts, spec: Parts, g: Parts)
    requires Relative(spec) && LeadsTo(file, spec, g)
    ensures if DeepInSrc(g) then ImportTargetLayer(file, spec) == LayerOf(g) else LayerOf(g) == None
  {
    LayerOfAbsolute(g);
    if DeepInSrc(g) {
      FirstSrcAgrees(Target(file, spec), g);
    }
  }

  /** The component after the first `src` names the layer, if it is one of the eight; six
      of them are ordered. */
  lemma LayerNames(g: Parts)
    requires |g| > 0 && g[0] == "" && AllPlain(g[1..]) && DeepInSrc(g)
    ensures var top := g[IndexOf(g, "src") + 1];
            && LayerOf(g) == (if top in {"types", "config", "repo", "service", "runtime", "ui", "providers", "utils"}
                              then Some(top) else None)
            && (Ranked(g) <==> top in {"types", "config", "repo", "service", "runtime", "ui"})
            && (top == "types" ==> RankOf(g) == 0) && (top == "config" ==> RankOf(g) == 1)
            && (top == "repo" ==> RankOf(g) == 2) && (top == "service" ==> RankOf(g) == 3)
            && (top == "runtime" ==> RankOf(g) == 4) && (top == "ui" ==> RankOf(g) == 5)
  {
    LayerOfAbsolute(g);
    OrderNames(g[IndexOf(g, "src") + 1]);
    hide DeepInSrc, LayerRank, KnownLayer;
  }

  lemma OrderNames(top: string)
    ensures top in LAYER_ORDER <==> top in {"types", "config", "repo", "service", "runtime", "ui"}
    ensures KnownLayer(top) == if top in {"types", "config", "repo", "service", "runtime", "ui", "providers", "utils"}
                               then Some(top) else None
    ensures LayerRank("types") == 0 && LayerRank("config") == 1 && LayerRank("repo") == 2
    ensures LayerRank("service") == 3 && LayerRank("runtime") == 4 && LayerRank("ui") == 5
  {
    assert LAYER_ORDER[0] == "types" && LAYER_ORDER[1] == "config" && LAYER_ORDER[2] == "repo";
    assert LAYER_ORDER[3] == "service" && LAYER_ORDER[4] == "runtime" && LAYER_ORDER[5] == "ui";
    assert "types"[0] == 't' && "config"[0] == 'c' && |"repo"| == 4 && |"service"| == 7 && "runtime"[1] == 'u';
    assert "service"[1] == 'e' && |"ui"| == 2 && |"types"| == 5 && |"config"| == 6 && |"runtime"| == 7;
  }

  // ------------------------------------------------------------ the accept rule

  datatype Report = Upstream | CrossDomain

  predicate EndsWith(s: string, suffix: string) {
    |suffix| <= |s| && s[|s| - |suffix|..] == suffix
  }

  predicate IsTest(file: Parts) {
    |file| > 0 && EndsWith(file[|file| - 1], ".test.ts")
  }

  /** What the rule says about one import of one file; `None` accepts it. */
  function Check(file: Parts, spec: Parts): Option<Report> {
    if IsTest(file) then None
    else
      var fromLayer := LayerOf(file);
      var toLayer := ImportTargetLayer(file, spec);
      if fromLayer.None? || toLayer.None? then None
      else if toLayer.value == "providers" || toLayer.value == "utils" then None
      else if fromLayer.value == "providers" || fromLayer.value == "utils" then None
      else if LayerRank(toLayer.value) > LayerRank(fromLayer.value) then Some(Upstream)
      else if fromLayer.value == "service" && toLayer.value == "service" then
        var fromDomain := Capture(file, ["src", "service"], 0);
        var toDomain := Capture(spec, ["service"], 0);
        if fromDomain.Some? && toDomain.Some? && fromDomain != toDomain then Some(CrossDomain) else None
      else None
  }

  lemma TestNames(file: Parts)
    requires |file| > 0
    ensures IsTest(file) <==> exists s :: file[|file| - 1] == s + ".test.ts"
  {
    var x := file[|file| - 1];
    if IsTest(file) {
      assert x == x[..|x| - 8] + ".test.ts";
    }
  }

  /** Every verdict of the rule, by where the import leads. */
  lemma VerdictExactly(file: Parts, spec: Parts, g: Parts)
    requires !IsTest(file) && Relative(spec) && LeadsTo(file, spec, g) && DeepInSrc(g)
    ensures Check(file, spec) == Some(Upstream) <==> Ranked(file) && Ranked(g) && RankOf(g) > RankOf(file)
    ensures Check(file, spec) == Some(CrossDomain) <==>
      && LayerOf(file) == LayerOf(g) == Some("service")
      && Capture(file, ["src", "service"], 0).Some? && Capture(spec, ["service"], 0).Some?
      && Capture(file, ["src", "service"], 0) != Capture(spec, ["service"], 0)
  {
    hide LeadsTo, LayerOf, ImportTargetLayer, Capture, IsTest, Relative, DeepInSrc;
    TargetLayerIsFileLayer(file, spec, g);
    LayersAreKnown(file);
    LayersAreKnown(g);
    assert "providers" !in LAYER_ORDER && "utils" !in LAYER_ORDER;
  }

  lemma LayersAreKnown(file: Parts)
    ensures LayerOf(file).Some? ==> Ranked(file) || LayerOf(file).value in {"providers", "utils"}
  {
  }

  ghost predicate LeadsToFree(file: Parts, spec: Parts, g: Parts) {
    && Relative(spec) && LeadsTo(file, spec, g) && DeepInSrc(g)
    && LayerOf(g) in {None, Some("providers"), Some("utils")}
  }

  /** What the rule never reports: imports in a test, of a package, in a file without a
      layer such as one that lies directly in `src`, in `providers` or `utils`, or of
      these two. */
  lemma FreeImports(file: Parts, spec: Parts, g: Parts)
    ensures IsTest(file) ==> Check(file, spec) == None
    ensures |spec| <= 1 || spec[0] !in {".", ".."} ==> Check(file, spec) == None
    ensures |file| > 0 && file[0] == "" && AllPlain(file[1..]) && !DeepInSrc(file) ==> Check(file, spec) == None
    ensures LayerOf(file) in {None, Some("providers"), Some("utils")} ==> Check(file, spec) == None
    ensures LeadsToFree(file, spec, g) ==> Check(file, spec) == None
  {
    hide LeadsTo, LayerOf, Capture, IsTest;
    if Relative(spec) && LeadsTo(file, spec, g) && DeepInSrc(g) {
      TargetLayerIsFileLayer(file, spec, g);
    }
    if |file| > 0 && file[0] == "" && AllPlain(file[1..]) {
      LayerOfAbsolute(file);
    }
  }

  /** Exactly which imports between ranked files are reported as going up: those of a
      higher layer.  So of the documented rule, "strictly below", the code keeps
      everything but the case of equal layers. */
  lemma UpstreamReportedExactly(file: Parts, spec: Parts, g: Parts)
    requires !IsTest(file) && Ranked(file) && Ranked(g)
    requires Relative(spec) && LeadsTo(file, spec, g)
    ensures Check(file, spec) == Some(Upstream) <==> RankOf(g) > RankOf(file)
    ensures (Check(file, spec) != Some(Upstream) <==> RankOf(g) < RankOf(file)) <==> RankOf(g) != RankOf(file)
  {
    hide LeadsTo, LayerOf, ImportTargetLayer, Capture, IsTest, Relative, DeepInSrc;
    TargetLayerIsFileLayer(file, spec, g);
    assert "providers" !in LAYER_ORDER && "utils" !in LAYER_ORDER;
  }

  /** An accepted relative import between ranked files never goes up a layer. */
  lemma AcceptedNeverRises(file: Parts, spec: Parts, g: Parts)
    requires !IsTest(file) && Ranked(file) && Ranked(g)
    requires Relative(spec) && LeadsTo(file, spec, g) && Check(file, spec) == None
    ensures RankOf(g) <= RankOf(file)
  {
    hide LeadsTo, LayerOf, Check, LayerRank;
    UpstreamReportedExactly(file, spec, g);
  }

  ghost predicate Imports(file: Parts, spec: Parts, g: Parts) {
    !IsTest(file) && Relative(spec) && LeadsTo(file, spec, g) && Check(file, spec) == None
  }

  /** Along any chain of accepted imports between non-test files in ranked layers the
      rank never rises. */
  lemma {:induction false} LayeringIsTransitive(files: seq<Parts>, specs: seq<Parts>, i: nat, j: nat)
    requires |files| == |specs| + 1 && i <= j < |files|
    requires forall k :: 0 <= k < |files| ==> Ranked(files[k])
    requires forall k :: 0 <= k < |specs| ==> Imports(files[k], specs[k], files[k + 1])
    ensures RankOf(files[j]) <= RankOf(files[i])
    decreases j - i
  {
    hide LayerOf, LayerRank, Check, LeadsTo, IsTest;
    if i < j {
      LayeringIsTransitive(files, specs, i, j - 1);
      assert Imports(files[j - 1], specs[j - 1], files[j]);
      AcceptedNeverRises(files[j - 1], specs[j - 1], files[j]);
    }
  }

  /** The file `x` in directory `d` of `/pre`, and the import of `y` in the sibling
      directory `top`. */
  function FileIn(pre: Parts, d: string, x: string): Parts {
    [""] + pre + [d, x]
  }

  function SpecTo(top: string, y: string): Parts {
    ["..", top, y]
  }

  lemma PushAllOne(stack: Parts, p: string)
    ensures PushAll(stack, [p]) == Push(stack, p)
  {
    assert [p][..0] == [];
  }

  lemma SiblingDirectory(pre: Parts, d: string, x: string)
    requires AllPlain(pre) && Plain(d) && Plain(x)
    ensures PushAll([], Directory(FileIn(pre, d, x))) == pre + [d]
  {
    var deep := pre + [d];
    assert Directory(FileIn(pre, d, x)) == [""] + deep;
    hide PushAll;
    PushAllOne([], "");
    PlainIsPushed([], deep);
    PushAllConcat([], [""], deep);
    assert [] + deep == deep;
  }

  lemma UpAndOver(pre: Parts, d: string, top: string, y: string)
    requires Plain(top) && Plain(y)
    ensures PushAll(pre + [d], SpecTo(top, y)) == pre + [top, y]
  {
    hide PushAll;
    var deep := pre + [d];
    assert SpecTo(top, y) == [".."] + [top, y];
    PushAllOne(deep, "..");
    assert deep[..|deep| - 1] == pre;
    PlainIsPushed(pre, [top, y]);
    PushAllConcat(deep, [".."], [top, y]);
  }

  lemma SiblingTarget(pre: Parts, d: string, x: string, top: string, y: string)
    requires AllPlain(pre) && Plain(d) && Plain(x) && Plain(top) && Plain(y)
    ensures Target(FileIn(pre, d, x), SpecTo(top, y)) == pre + [top, y]
    ensures LeadsTo(FileIn(pre, d, x), SpecTo(top, y), FileIn(pre, top, y))
  {
    SiblingDirectory(pre, d, x);
    UpAndOver(pre, d, top, y);
    hide PushAll, Directory;
    PushAllConcat([], Directory(FileIn(pre, d, x)), SpecTo(top, y));
    assert FileIn(pre, top, y)[1..] == pre + [top, y];
  }

  lemma SiblingImport(d: string, x: string, top: string, y: string)
    requires Plain(d) && Plain(x) && Plain(top) && Plain(y) && d != "src" && top != "src"
    ensures LeadsTo(FileIn(["src"], d, x), SpecTo(top, y), FileIn(["src"], top, y))
    ensures LayerOf(FileIn(["src"], d, x)) == KnownLayer(d)
    ensures ImportTargetLayer(FileIn(["src"], d, x), SpecTo(top, y)) == KnownLayer(top)
  {
    SiblingTarget(["src"], d, x, top, y);
    var file := FileIn(["src"], d, x);
    assert file == ["", "src", d, x] && file[1..] == ["src", d, x];
    LayerOfAbsolute(file);
    assert IndexOf(file, "src") == 1;
    assert Target(file, SpecTo(top, y)) == ["src", top, y];
  }

  lemma BesideImport(d: string, x: string, y: string)
    requires Plain(d) && Plain(x) && Plain(y)
    ensures Target(FileIn(["src"], d, x), [".", y]) == ["src", d, y]
    ensures LeadsTo(FileIn(["src"], d, x), [".", y], FileIn(["src"], d, y))
  {
    hide PushAll;
    var f := FileIn(["src"], d, x);
    SiblingDirectory(["src"], d, x);
    BesideTarget(["src"] + [d], y);
    PushAllConcat([], Directory(f), [".", y]);
    assert Target(f, [".", y]) == ["src"] + [d] + [y] == ["src", d, y];
    assert FileIn(["src"], d, y)[1..] == ["src", d, y];
  }

  /** An import within its own layer, of `y` beside `x`, is accepted in every layer. */
  lemma OwnLayerIsAccepted(d: string, x: string, y: string)
    requires d in LAYER_ORDER && Plain(x) && Plain(y)
    ensures var f, g := FileIn(["src"], d, x), FileIn(["src"], d, y);
            && LeadsTo(f, [".", y], g) && Check(f, [".", y]) == None
            && Ranked(f) && Ranked(g) && RankOf(g) == RankOf(f)
  {
    assert Plain(d) && d != "src" && KnownLayer(d) == Some(d);
    var f := FileIn(["src"], d, x);
    BesideImport(d, x, y);
    SiblingImport(d, x, d, y);
    SiblingImport(d, y, d, x);
    TooShallowForADomain(d, x);
    hide LeadsTo, LayerOf, Capture, Target;
    assert IndexOf(["src", d, y], "src") == 0;
  }

  lemma TooShallowForADomain(d: string, x: string)
    ensures Capture(FileIn(["src"], d, x), ["src", "service"], 0) == None
  {
    var f := FileIn(["src"], d, x);
    forall i | 0 <= i < |f|
      ensures !CapturesAt(f, ["src", "service"], i)
    {
      CaptureStarts(f, ["src", "service"], i);
    }
    CaptureSkips(f, ["src", "service"], 0, |f|);
  }

  lemma BesideTarget(dir: Parts, y: string)
    requires Plain(y)
    ensures PushAll(dir, [".", y]) == dir + [y]
  {
    hide PushAll;
    assert [".", y] == ["."] + [y];
    PushAllConcat(dir, ["."], [y]);
    PushAllOne(dir, ".");
    PushAllOne(dir, y);
  }

  // ------------------------------------------------------- service domains

  /** `n` steps up. */
  function Ups(n: nat): Parts {
    if n == 0 then [] else Ups(n - 1) + [".."]
  }

  lemma {:induction false} UpsPop(stack: Parts, n: nat)
    requires n <= |stack|
    ensures |Ups(n)| == n && PushAll(stack, Ups(n)) == stack[..|stack| - n]
    ensures forall i :: 0 <= i < n ==> Ups(n)[i] == ".."
    decreases n
  {
    if n > 0 {
      UpsPop(stack, n - 1);
      PushAllConcat(stack, Ups(n - 1), [".."]);
      PushAllOne(stack[..|stack| - (n - 1)], "..");
    }
  }

  /** The service file `x`, `inner` directories below domain `d`. */
  function ServiceFile(root: Parts, d: string, inner: Parts): Parts {
    [""] + ((root + ["src", "service"]) + ([d] + inner))
  }

  /** Two spellings of one import of `rest` in domain `e`: up to `src` and down through
      `service`, or just up to `service` and down. */
  function SpecFrom(depth: nat, e: string, rest: Parts, viaSrc: bool): Parts {
    if viaSrc then Ups(depth + 2) + (["service"] + ([e] + rest)) else Ups(depth + 1) + ([e] + rest)
  }

  lemma ServiceFileParts(root: Parts, d: string, inner: Parts)
    requires AllPlain(root) && "src" !in root && Plain(d) && AllPlain(inner) && |inner| > 0
    ensures var f := ServiceFile(root, d, inner);
            && f[0] == "" && AllPlain(f[1..])
            && Capture(f, ["src", "service"], 0) == Some(d) && LayerOf(f) == Some("service")
  {
    var f := ServiceFile(root, d, inner);
    var n := |root| + 1;
    assert f[1..] == (root + ["src", "service"]) + ([d] + inner);
    assert forall i :: 0 <= i < |root| ==> f[i + 1] == root[i];
    assert f[n] == "src" && f[n + 1] == "service" && f[n + 2] == d && n + 3 < |f|;
    assert f[n..n + 2] == ["src", "service"];
    forall i | 0 <= i < n
      ensures !CapturesAt(f, ["src", "service"], i)
    {
      CaptureStarts(f, ["src", "service"], i);
      assert f[i] != "src";
    }
    CaptureSkips(f, ["src", "service"], 0, n);
    LayerOfAbsolute(f);
    assert IndexOf(f, "src") == n;
    assert LAYER_ORDER[3] == "service";
  }

  /** `k` steps up from directory `deep`, then down along `tail`. */
  lemma UpAndDown(f: Parts, deep: Parts, k: nat, tail: Parts)
    requires Directory(f) == [""] + deep && AllPlain(deep) && AllPlain(tail) && k <= |deep|
    ensures Target(f, Ups(k) + tail) == deep[..|deep| - k] + tail
  {
    hide PushAll, Directory, AllPlain;
    PushAllOne([], "");
    PlainIsPushed([], deep);
    PushAllConcat([], [""], deep);
    assert [] + deep == deep;
    UpsPop(deep, k);
    PlainIsPushed(deep[..|deep| - k], tail);
    PushAllConcat(deep, Ups(k), tail);
    PushAllConcat([], Directory(f), Ups(k) + tail);
  }

  lemma ServiceTarget(root: Parts, d: string, inner: Parts, e: string, rest: Parts, viaSrc: bool)
    requires AllPlain(root) && Plain(d) && AllPlain(inner) && |inner| > 0
    requires Plain(e) && AllPlain(rest) && |rest| > 0
    ensures var f, spec := ServiceFile(root, d, inner), SpecFrom(|inner| - 1, e, rest, viaSrc);
            Target(f, spec) == (root + ["src", "service"]) + ([e] + rest)
  {
    hide Target, Ups;
    var f, n := ServiceFile(root, d, inner), |inner| - 1;
    var home := root + ["src", "service"];
    var deep := home + ([d] + inner[..n]);
    assert Directory(f) == [""] + deep;
    if viaSrc {
      UpAndDown(f, deep, n + 2, ["service"] + ([e] + rest));
      assert deep[..|deep| - (n + 2)] == root + ["src"];
      assert (root + ["src"]) + (["service"] + ([e] + rest)) == home + ([e] + rest);
    } else {
      UpAndDown(f, deep, n + 1, [e] + rest);
      assert deep[..|deep| - (n + 1)] == home;
    }
  }

  /** No component that two others follow is called `service`. */
  predicate NamesNoDomain(tail: Parts) {
    forall i :: 0 <= i < |tail| - 2 ==> tail[i] != "service"
  }

  lemma SpecCaptures(depth: nat, e: string, rest: Parts, viaSrc: bool)
    requires Plain(e) && |rest| > 0
    requires !viaSrc ==> NamesNoDomain([e] + rest)
    ensures Capture(SpecFrom(depth, e, rest, viaSrc), ["service"], 0) == if viaSrc then Some(e) else None
    ensures Relative(SpecFrom(depth, e, rest, viaSrc))
  {
    var spec := SpecFrom(depth, e, rest, viaSrc);
    var k := if viaSrc then depth + 2 else depth + 1;
    UpsPop(seq(k, i => "x"), k);
    assert spec[0] == Ups(k)[0] == "..";
    assert forall i :: 0 <= i < k ==> spec[i] == Ups(k)[i];
    var n := if viaSrc then k else |spec|;
    forall i | 0 <= i < n
      ensures !CapturesAt(spec, ["service"], i)
    {
      CaptureStarts(spec, ["service"], i);
      if i >= k {
        assert spec[i] == ([e] + rest)[i - k];
      }
      assert i + 2 < |spec| ==> spec[i] != "service";
    }
    CaptureSkips(spec, ["service"], 0, n);
    if viaSrc {
      assert spec[k] == "service" && spec[k + 1] == e && spec[k..k + 1] == ["service"];
    }
  }

  /** Between two service files the verdict follows the text of the import. */
  lemma CrossDomainFollowsText(file: Parts, spec: Parts, g: Parts, d: string)
    requires !IsTest(file) && Relative(spec) && LeadsTo(file, spec, g)
    requires LayerOf(file) == Some("service") && LayerOf(g) == Some("service")
    requires Capture(file, ["src", "service"], 0) == Some(d)
    ensures Check(file, spec) == Some(CrossDomain) <==>
      Capture(spec, ["service"], 0).Some? && Capture(spec, ["service"], 0) != Some(d)
    ensures Check(file, spec) != Some(Upstream)
  {
    TargetLayerIsFileLayer(file, spec, g);
  }

  /** The cross-domain verdict against where the import leads.  From a service file of
      domain `d`, however deep, both spellings lead to the same file of domain `e`; the
      import is reported exactly when the domains differ and the spelling goes through
      `src`.  So the rule is right about an import of another domain exactly when the
      import climbs out of `service`. */
  lemma CrossDomainReportedExactly(root: Parts, d: string, inner: Parts, e: string, rest: Parts, viaSrc: bool)
    requires AllPlain(root) && "src" !in root && Plain(d) && AllPlain(inner) && |inner| > 0
    requires Plain(e) && AllPlain(rest) && |rest| > 0
    requires !viaSrc ==> NamesNoDomain([e] + rest)
    ensures var f, g := ServiceFile(root, d, inner), ServiceFile(root, e, rest);
            var spec := SpecFrom(|inner| - 1, e, rest, viaSrc);
            && LeadsTo(f, spec, g)
            && Capture(f, ["src", "service"], 0) == Some(d) && Capture(g, ["src", "service"], 0) == Some(e)
            && (!IsTest(f) ==> (Check(f, spec) == Some(CrossDomain) <==> d != e && viaSrc))
            && Check(f, spec) != Some(Upstream)
  {
    hide LayerOf, Check, Capture, Target, IsTest, Relative, SpecFrom, Ups, AllPlain, NamesNoDomain;
    var f, g := ServiceFile(root, d, inner), ServiceFile(root, e, rest);
    var spec := SpecFrom(|inner| - 1, e, rest, viaSrc);
    ServiceFileParts(root, d, inner);
    ServiceFileParts(root, e, rest);
    ServiceTarget(root, d, inner, e, rest, viaSrc);
    SpecCaptures(|inner| - 1, e, rest, viaSrc);
    assert g[1..] == Target(f, spec);
    if !IsTest(f) {
      CrossDomainFollowsText(f, spec, g, d);
    } else {
      TestsAreNotChecked(f, spec);
    }
  }

  lemma TestsAreNotChecked(file: Parts, spec: Parts)
    requires IsTest(file)
    ensures Check(file, spec) == None
  {
  }

  /** "Ranked" cannot be dropped: every import of a chain may be accepted and the rank
      still rise when the chain passes through `providers`. */
  lemma ProvidersLetRankRise()
    ensures var f, g, h := FileIn(["src"], "types", "a.ts"), FileIn(["src"], "providers", "b.ts"),
                          FileIn(["src"], "runtime", "c.ts");
            && Imports(f, SpecTo("providers", "b.ts"), g)
            && Imports(g, SpecTo("runtime", "c.ts"), h)
            && Ranked(f) && Ranked(h) && RankOf(f) < RankOf(h)
  {
    hide LeadsTo, LayerOf, ImportTargetLayer;
    SiblingImport("types", "a.ts", "providers", "b.ts");
    SiblingImport("providers", "b.ts", "runtime", "c.ts");
    SiblingImport("runtime", "c.ts", "types", "a.ts");
    assert LAYER_ORDER[0] == "types" && LAYER_ORDER[4] == "runtime";
  }
}
