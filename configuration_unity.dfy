/** `ConfigurationUnity`: the configuration key a section is bound under,
    and the discovery of the assemblies a calling assembly references,
    directly or transitively, which `Bind(Assembly, …)` then scans for
    configuration binders. */
module Configuration {
  import opened Wrappers

  // ---------------------------------------------------------------------
  // Section keys
  // ---------------------------------------------------------------------

  /** The key `Bind<T>` looks a section up under: its storage name with
      every `/` replaced by `:` (`String.Replace("/", ":")`). */
  function ConfigurationKey(storageName: string): (key: string)
    ensures |key| == |storageName|
    ensures forall i :: 0 <= i < |storageName| ==>
              key[i] == (if storageName[i] == '/' then ':' else storageName[i])
  {
    if storageName == [] then []
    else [if storageName[0] == '/' then ':' else storageName[0]] + ConfigurationKey(storageName[1..])
  }

  /** No `/` survives in a key. */
  lemma ConfigurationKeyHasNoSlash(storageName: string)
    ensures '/' !in ConfigurationKey(storageName)
  {
    var key := ConfigurationKey(storageName);
    forall i | 0 <= i < |key| ensures key[i] != '/' {
    }
  }

  /** A name without `/` is its own key, and only such a name is. */
  lemma ConfigurationKeyIdentity(storageName: string)
    ensures ConfigurationKey(storageName) == storageName <==> '/' !in storageName
  {
    if '/' in storageName {
      var i :| 0 <= i < |storageName| && storageName[i] == '/';
      assert ConfigurationKey(storageName)[i] == ':';
    } else {
      assert forall i :: 0 <= i < |storageName| ==> ConfigurationKey(storageName)[i] == storageName[i];
    }
  }

  /** Mapping a key again changes nothing. */
  lemma ConfigurationKeyIdempotent(storageName: string)
    ensures ConfigurationKey(ConfigurationKey(storageName)) == ConfigurationKey(storageName)
  {
    ConfigurationKeyHasNoSlash(storageName);
    ConfigurationKeyIdentity(ConfigurationKey(storageName));
  }

  /** A nested storage name `outer/inner` is bound under `outer:inner`. */
  lemma ConfigurationKeyOfNested(outer: string, inner: string)
    ensures ConfigurationKey(outer + "/" + inner) == ConfigurationKey(outer) + ":" + ConfigurationKey(inner)
  {
    var lhs := ConfigurationKey(outer + "/" + inner);
    var rhs := ConfigurationKey(outer) + ":" + ConfigurationKey(inner);
    assert |lhs| == |rhs|;
    forall i | 0 <= i < |lhs| ensures lhs[i] == rhs[i] {
      if i < |outer| {
      } else if i == |outer| {
      } else {
        assert (outer + "/" + inner)[i] == inner[i - |outer| - 1];
      }
    }
  }

  // ---------------------------------------------------------------------
  // The assembly-name filter
  // ---------------------------------------------------------------------

  /** The upper case of an ASCII letter; every other character is its own. */
  function UpperAscii(c: char): char {
    if 'a' <= c <= 'z' then (c as int - 32) as char else c
  }

  /** The lower case of an ASCII letter; every other character is its own. */
  function LowerAscii(c: char): char {
    if 'A' <= c <= 'Z' then (c as int + 32) as char else c
  }

  /** `s.StartsWith(prefix, StringComparison.OrdinalIgnoreCase)`: the
      characters are compared by their upper case. */
  predicate StartsWithIgnoreCase(s: string, prefix: string)
    // an exact (ordinal) prefix also matches ignoring case
    ensures prefix <= s ==> StartsWithIgnoreCase(s, prefix)
  {
    |prefix| <= |s| && forall i :: 0 <= i < |prefix| ==> UpperAscii(s[i]) == UpperAscii(prefix[i])
  }

  /** Despite its name, true for an assembly name to KEEP: one that starts
      with neither `system.` nor `microsoft.`, in any case. */
  predicate ExcludeAssembly(assemblyName: string)
    // a kept name does not start with either prefix as written
    ensures ExcludeAssembly(assemblyName) ==> !("system." <= assemblyName) && !("microsoft." <= assemblyName)
    // a name shorter than both prefixes is always kept
    ensures |assemblyName| < |"system."| ==> ExcludeAssembly(assemblyName)
  {
    !StartsWithIgnoreCase(assemblyName, "system.") && !StartsWithIgnoreCase(assemblyName, "microsoft.")
  }

  /** A string with every ASCII letter in lower case. */
  function LowerString(s: string): (r: string)
    ensures |r| == |s|
    ensures forall i :: 0 <= i < |s| ==> r[i] == LowerAscii(s[i])
  {
    if s == [] then [] else [LowerAscii(s[0])] + LowerString(s[1..])
  }

  /** Against a prefix already in lower case, comparing upper cases is
      comparing the lowered string. */
  lemma StartsWithIgnoreCaseByLowering(s: string, prefix: string)
    requires forall i :: 0 <= i < |prefix| ==> LowerAscii(prefix[i]) == prefix[i]
    ensures StartsWithIgnoreCase(s, prefix) <==> prefix <= LowerString(s)
  {
    var low := LowerString(s);
    if |prefix| <= |s| {
      forall i | 0 <= i < |prefix|
        ensures UpperAscii(s[i]) == UpperAscii(prefix[i]) <==> low[i] == prefix[i]
      {
        assert LowerAscii(prefix[i]) == prefix[i];
      }
      if prefix <= low {
        assert forall i :: 0 <= i < |prefix| ==> low[i] == prefix[i];
      }
      if StartsWithIgnoreCase(s, prefix) {
        assert prefix == low[..|prefix|];
      }
    }
  }

  /** The case of the tested string's letters does not matter. */
  lemma StartsWithIgnoreCaseOfLowered(s: string, prefix: string)
    ensures StartsWithIgnoreCase(s, prefix) <==> StartsWithIgnoreCase(LowerString(s), prefix)
  {
    var low := LowerString(s);
    forall i | 0 <= i < |s| ensures UpperAscii(low[i]) == UpperAscii(s[i]) {
    }
  }

  /** The filter keeps exactly the names whose lower-case form starts with
      neither `system.` nor `microsoft.`. */
  lemma ExcludeAssemblyByLowering(assemblyName: string)
    ensures ExcludeAssembly(assemblyName) <==>
              !("system." <= LowerString(assemblyName)) && !("microsoft." <= LowerString(assemblyName))
  {
    StartsWithIgnoreCaseByLowering(assemblyName, "system.");
    StartsWithIgnoreCaseByLowering(assemblyName, "microsoft.");
  }

  /** Names the filter keeps. */
  lemma ExcludeAssemblyKeeps()
    ensures ExcludeAssembly("Fireasy.Common")
    ensures ExcludeAssembly("Systems.Data")
    ensures ExcludeAssembly("system")
  {
    assert "Fireasy.Common"[0] == 'F';
    assert "Systems.Data"[6] == 's';
  }

  /** Names the filter drops, whatever their case. */
  lemma ExcludeAssemblyDrops()
    ensures !ExcludeAssembly("System.Linq")
    ensures !ExcludeAssembly("MICROSOFT.Extensions")
    ensures !ExcludeAssembly("sYsTeM.")
  {
    assert StartsWithIgnoreCase("System.Linq", "system.");
    assert StartsWithIgnoreCase("MICROSOFT.Extensions", "microsoft.");
    assert StartsWithIgnoreCase("sYsTeM.", "system.");
  }

  // ---------------------------------------------------------------------
  // The reference graph
  // ---------------------------------------------------------------------

  /** The identity of a loaded assembly. */
  type AssemblyId = nat

  /** What the runtime knows: the ordered names each assembly references
      (`GetReferencedAssemblies`), and which names `Assembly.Load`
      resolves; a name missing from `loader` fails to load. A name is the
      full display name of an `AssemblyName` (simple name, then `, Version=…`
      and so on). The filter tests only the simple name, but it gives the
      same answer on the display name: both prefixes it looks for end in
      `.`, and the display name continues after the simple name with `,`. */
  datatype World = World(references: map<AssemblyId, seq<string>>, loader: map<string, AssemblyId>)

  /** `assembly.GetReferencedAssemblies()`, as names. */
  function GetReferencedAssemblies(w: World, assembly: AssemblyId): (names: seq<string>)
    // an assembly the world does not describe references nothing
    ensures assembly in w.references ==> names == w.references[assembly]
    ensures assembly !in w.references ==> names == []
  {
    if assembly in w.references then w.references[assembly] else []
  }

  /** `LoadAssembly`: a failing load is swallowed into "no assembly". */
  function LoadAssembly(w: World, name: string): (loaded: Option<AssemblyId>)
    // a load failure gives "no assembly", never an error
    ensures loaded.None? <==> name !in w.loader
    ensures loaded.Some? ==> loaded.value == w.loader[name]
  {
    if name in w.loader then Some(w.loader[name]) else None
  }

  /** One reference through the query of `FindReferenceAssemblies`: kept by
      `ExcludeAssembly`, then loaded, then kept if the load succeeded. */
  function ResolveReference(w: World, name: string): (r: Option<AssemblyId>)
    // a reference survives the query exactly when it passes the filter and loads
    ensures r.Some? <==> ExcludeAssembly(name) && name in w.loader
    ensures r.Some? ==> r.value == w.loader[name]
  {
    if ExcludeAssembly(name) then LoadAssembly(w, name) else None
  }

  /** `rank` orders the reference graph: every assembly a ranked assembly
      reaches in one step is ranked lower. The walk re-enters assemblies it
      has already listed, so it ends only on an acyclic graph. */
  ghost predicate Ranked(w: World, rank: map<AssemblyId, nat>) {
    forall a, name :: a in rank && name in GetReferencedAssemblies(w, a) && ResolveReference(w, name).Some? ==>
      ResolveReference(w, name).value in rank && rank[ResolveReference(w, name).value] < rank[a]
  }

  /** `a` references `b` directly, through a name that passes the filter and loads as `b`. */
  ghost predicate Edge(w: World, a: AssemblyId, b: AssemblyId) {
    exists name :: name in GetReferencedAssemblies(w, a) && ResolveReference(w, name) == Some(b)
  }

  /** A chain of direct references. */
  ghost predicate IsChain(w: World, chain: seq<AssemblyId>) {
    forall i :: 0 <= i < |chain| - 1 ==> Edge(w, chain[i], chain[i + 1])
  }

  /** `to` is reached from `from` through at least one reference. */
  ghost predicate Reachable(w: World, from: AssemblyId, to: AssemblyId) {
    exists chain :: |chain| >= 2 && chain[0] == from && chain[|chain| - 1] == to && IsChain(w, chain)
  }

  /** The assemblies reachable from `a`, collected reference by reference. */
  ghost function Reach(w: World, rank: map<AssemblyId, nat>, a: AssemblyId): set<AssemblyId>
    requires Ranked(w, rank) && a in rank
    decreases rank[a], 1
  {
    ReachRefs(w, rank, a, |GetReferencedAssemblies(w, a)|)
  }

  /** The assemblies reachable from `a` through its first `k` references. */
  ghost function ReachRefs(w: World, rank: map<AssemblyId, nat>, a: AssemblyId, k: nat): set<AssemblyId>
    requires Ranked(w, rank) && a in rank && k <= |GetReferencedAssemblies(w, a)|
    decreases rank[a], 0, k
  {
    if k == 0 then {}
    else
      var name := GetReferencedAssemblies(w, a)[k - 1];
      assert name in GetReferencedAssemblies(w, a);
      ReachRefs(w, rank, a, k - 1) +
      match ResolveReference(w, name)
      case None => {}
      case Some(b) => {b} + Reach(w, rank, b)
  }

  // ---------------------------------------------------------------------
  // The walk of FindReferenceAssemblies, on values
  // ---------------------------------------------------------------------

  /** The list after `FindReferenceAssemblies(a, acc)`. */
  ghost function Walk(w: World, rank: map<AssemblyId, nat>, a: AssemblyId, acc: seq<AssemblyId>): (r: seq<AssemblyId>)
    requires Ranked(w, rank) && a in rank
    // the walk only appends: what was listed keeps its place and order
    ensures acc <= r
    decreases rank[a], 1
  {
    WalkRefs(w, rank, a, |GetReferencedAssemblies(w, a)|, acc)
  }

  /** The list after the first `k` iterations of the loop over `a`'s references. */
  ghost function WalkRefs(w: World, rank: map<AssemblyId, nat>, a: AssemblyId, k: nat, acc: seq<AssemblyId>): (r: seq<AssemblyId>)
    requires Ranked(w, rank) && a in rank && k <= |GetReferencedAssemblies(w, a)|
    ensures acc <= r
    decreases rank[a], 0, k
  {
    if k == 0 then acc
    else
      var prev := WalkRefs(w, rank, a, k - 1, acc);
      var name := GetReferencedAssemblies(w, a)[k - 1];
      assert name in GetReferencedAssemblies(w, a);
      match ResolveReference(w, name)
      case None => prev
      case Some(asb) =>
        var next := if asb in prev then prev else prev + [asb];
        var r := Walk(w, rank, asb, next);
        PrefixTransitive(acc, prev, next);
        PrefixTransitive(acc, next, r);
        r
  }

  ghost predicate NoDuplicates(s: seq<AssemblyId>) {
    forall i, j :: 0 <= i < j < |s| ==> s[i] != s[j]
  }

  lemma PrefixTransitive(a: seq<AssemblyId>, b: seq<AssemblyId>, c: seq<AssemblyId>)
    requires a <= b && b <= c
    ensures a <= c
  {
    assert a == b[..|a|] && b == c[..|b|];
  }

  /** A duplicate-free list stays duplicate-free. */
  lemma {:induction false} WalkKeepsNoDuplicates(w: World, rank: map<AssemblyId, nat>, a: AssemblyId, acc: seq<AssemblyId>)
    requires Ranked(w, rank) && a in rank
    requires NoDuplicates(acc)
    ensures NoDuplicates(Walk(w, rank, a, acc))
    decreases rank[a], 1
  {
    WalkRefsKeepsNoDuplicates(w, rank, a, |GetReferencedAssemblies(w, a)|, acc);
  }

  lemma {:induction false} WalkRefsKeepsNoDuplicates(w: World, rank: map<AssemblyId, nat>, a: AssemblyId, k: nat, acc: seq<AssemblyId>)
    requires Ranked(w, rank) && a in rank && k <= |GetReferencedAssemblies(w, a)|
    requires NoDuplicates(acc)
    ensures NoDuplicates(WalkRefs(w, rank, a, k, acc))
    decreases rank[a], 0, k
  {
    if k > 0 {
      WalkRefsKeepsNoDuplicates(w, rank, a, k - 1, acc);
      var prev := WalkRefs(w, rank, a, k - 1, acc);
      var name := GetReferencedAssemblies(w, a)[k - 1];
      assert name in GetReferencedAssemblies(w, a);
      match ResolveReference(w, name) {
        case None =>
        case Some(asb) =>
          var next := if asb in prev then prev else prev + [asb];
          assert NoDuplicates(next);
          WalkKeepsNoDuplicates(w, rank, asb, next);
      }
    }
  }

  /** The walk lists exactly what was listed before and what is reachable
      from `a`: every listed assembly is reachable (soundness) and every
      reachable assembly is listed (completeness). */
  lemma {:induction false} WalkElements(w: World, rank: map<AssemblyId, nat>, a: AssemblyId, acc: seq<AssemblyId>)
    requires Ranked(w, rank) && a in rank
    ensures forall x :: x in Walk(w, rank, a, acc) <==> x in acc || x in Reach(w, rank, a)
    decreases rank[a], 1
  {
    WalkRefsElements(w, rank, a, |GetReferencedAssemblies(w, a)|, acc);
  }

  lemma {:induction false} WalkRefsElements(w: World, rank: map<AssemblyId, nat>, a: AssemblyId, k: nat, acc: seq<AssemblyId>)
    requires Ranked(w, rank) && a in rank && k <= |GetReferencedAssemblies(w, a)|
    ensures forall x :: x in WalkRefs(w, rank, a, k, acc) <==> x in acc || x in ReachRefs(w, rank, a, k)
    decreases rank[a], 0, k
  {
    if k > 0 {
      WalkRefsElements(w, rank, a, k - 1, acc);
      var prev := WalkRefs(w, rank, a, k - 1, acc);
      var name := GetReferencedAssemblies(w, a)[k - 1];
      assert name in GetReferencedAssemblies(w, a);
      match ResolveReference(w, name) {
        case None =>
        case Some(asb) =>
          var next := if asb in prev then prev else prev + [asb];
          assert forall x :: x in next <==> x in prev || x == asb;
          WalkElements(w, rank, asb, next);
      }
    }
  }

  /** Everything reachable from `a` ranks below it; in particular `a`
      never reaches itself. */
  lemma {:induction false} ReachRanksLower(w: World, rank: map<AssemblyId, nat>, a: AssemblyId)
    requires Ranked(w, rank) && a in rank
    ensures forall x :: x in Reach(w, rank, a) ==> x in rank && rank[x] < rank[a]
    decreases rank[a], 1
  {
    ReachRefsRanksLower(w, rank, a, |GetReferencedAssemblies(w, a)|);
  }

  lemma {:induction false} ReachRefsRanksLower(w: World, rank: map<AssemblyId, nat>, a: AssemblyId, k: nat)
    requires Ranked(w, rank) && a in rank && k <= |GetReferencedAssemblies(w, a)|
    ensures forall x :: x in ReachRefs(w, rank, a, k) ==> x in rank && rank[x] < rank[a]
    decreases rank[a], 0, k
  {
    if k > 0 {
      ReachRefsRanksLower(w, rank, a, k - 1);
      var name := GetReferencedAssemblies(w, a)[k - 1];
      assert name in GetReferencedAssemblies(w, a);
      match ResolveReference(w, name) {
        case None =>
        case Some(b) =>
          ReachRanksLower(w, rank, b);
      }
    }
  }

  /** Every member of `Reach` is reachable through a chain of references. */
  lemma {:induction false} ReachSound(w: World, rank: map<AssemblyId, nat>, a: AssemblyId, x: AssemblyId)
    requires Ranked(w, rank) && a in rank
    requires x in Reach(w, rank, a)
    ensures Reachable(w, a, x)
    decreases rank[a], 1
  {
    ReachRefsSound(w, rank, a, |GetReferencedAssemblies(w, a)|, x);
  }

  lemma {:induction false} ReachRefsSound(w: World, rank: map<AssemblyId, nat>, a: AssemblyId, k: nat, x: AssemblyId)
    requires Ranked(w, rank) && a in rank && k <= |GetReferencedAssemblies(w, a)|
    requires x in ReachRefs(w, rank, a, k)
    ensures Reachable(w, a, x)
    decreases rank[a], 0, k
  {
    var name := GetReferencedAssemblies(w, a)[k - 1];
    assert name in GetReferencedAssemblies(w, a);
    if x in ReachRefs(w, rank, a, k - 1) {
      ReachRefsSound(w, rank, a, k - 1, x);
    } else {
      var b := ResolveReference(w, name).value;
      assert Edge(w, a, b);
      if x == b {
        var chain := [a, b];
        assert IsChain(w, chain);
      } else {
        ReachSound(w, rank, b, x);
        var tail :| |tail| >= 2 && tail[0] == b && tail[|tail| - 1] == x && IsChain(w, tail);
        var chain := [a] + tail;
        forall i | 0 <= i < |chain| - 1 ensures Edge(w, chain[i], chain[i + 1]) {
          if i > 0 {
            assert chain[i] == tail[i - 1] && chain[i + 1] == tail[i];
          }
        }
        assert IsChain(w, chain) && chain[0] == a && chain[|chain| - 1] == x;
      }
    }
  }

  /** A direct reference of `a`, with what it reaches, is in `Reach(a)`. */
  lemma {:induction false} ReachRefsGrow(w: World, rank: map<AssemblyId, nat>, a: AssemblyId, k: nat, j: nat)
    requires Ranked(w, rank) && a in rank && j < k <= |GetReferencedAssemblies(w, a)|
    requires ResolveReference(w, GetReferencedAssemblies(w, a)[j]).Some?
    ensures ResolveReference(w, GetReferencedAssemblies(w, a)[j]).value in rank
    ensures var b := ResolveReference(w, GetReferencedAssemblies(w, a)[j]).value;
              {b} + Reach(w, rank, b) <= ReachRefs(w, rank, a, k)
    decreases k
  {
    assert GetReferencedAssemblies(w, a)[j] in GetReferencedAssemblies(w, a);
    if j < k - 1 {
      ReachRefsGrow(w, rank, a, k - 1, j);
    }
  }

  /** Every assembly reachable through a chain of references is in `Reach`. */
  lemma {:induction false} ReachComplete(w: World, rank: map<AssemblyId, nat>, chain: seq<AssemblyId>)
    requires Ranked(w, rank) && |chain| >= 2 && chain[0] in rank && IsChain(w, chain)
    ensures chain[|chain| - 1] in Reach(w, rank, chain[0])
    decreases |chain|
  {
    var a, b := chain[0], chain[1];
    assert Edge(w, a, b);
    var name :| name in GetReferencedAssemblies(w, a) && ResolveReference(w, name) == Some(b);
    var j :| 0 <= j < |GetReferencedAssemblies(w, a)| && GetReferencedAssemblies(w, a)[j] == name;
    ReachRefsGrow(w, rank, a, |GetReferencedAssemblies(w, a)|, j);
    if |chain| > 2 {
      var tail := chain[1..];
      forall i | 0 <= i < |tail| - 1 ensures Edge(w, tail[i], tail[i + 1]) {
        assert tail[i] == chain[i + 1] && tail[i + 1] == chain[i + 2];
      }
      ReachComplete(w, rank, tail);
    }
  }

  /** `Reach` is reachability through chains, both ways. */
  lemma ReachIsReachable(w: World, rank: map<AssemblyId, nat>, a: AssemblyId, x: AssemblyId)
    requires Ranked(w, rank) && a in rank
    ensures x in Reach(w, rank, a) <==> Reachable(w, a, x)
  {
    if x in Reach(w, rank, a) {
      ReachSound(w, rank, a, x);
    }
    if Reachable(w, a, x) {
      var chain :| |chain| >= 2 && chain[0] == a && chain[|chain| - 1] == x && IsChain(w, chain);
      ReachComplete(w, rank, chain);
    }
  }

  /** An assembly none of whose references passes the filter and loads adds
      nothing to the list. */
  lemma {:induction false} WalkOfDeadEnd(w: World, rank: map<AssemblyId, nat>, a: AssemblyId, acc: seq<AssemblyId>)
    requires Ranked(w, rank) && a in rank
    requires forall name :: name in GetReferencedAssemblies(w, a) ==> ResolveReference(w, name).None?
    ensures Walk(w, rank, a, acc) == acc
  {
    var refs := GetReferencedAssemblies(w, a);
    var k := 0;
    while k < |refs|
      invariant 0 <= k <= |refs|
      invariant WalkRefs(w, rank, a, k, acc) == acc
    {
      assert refs[k] in refs;
      k := k + 1;
    }
  }

  // ---------------------------------------------------------------------
  // The imperative walk
  // ---------------------------------------------------------------------

  /** The `List<Assembly>` the walk fills in place. */
  class AssemblyList {
    var items: seq<AssemblyId>

    constructor ()
      ensures items == []
    {
      items := [];
    }

    /** `List.Contains`. */
    method Contains(x: AssemblyId) returns (found: bool)
      ensures found <==> x in items
    {
      found := x in items;
    }

    /** `List.Add`. */
    method Add(x: AssemblyId)
      modifies this
      ensures items == old(items) + [x]
    {
      items := items + [x];
    }

    /** `List.Clear`. */
    method Clear()
      modifies this
      ensures items == []
    {
      items := [];
    }
  }

  /** `FindReferenceAssemblies`: for each reference of `assembly` that passes
      the filter and loads, appends it to `assemblies` unless it is already
      there, then descends into it, listed before or not. */
  method FindReferenceAssemblies(w: World, ghost rank: map<AssemblyId, nat>, assembly: AssemblyId, assemblies: AssemblyList)
    requires Ranked(w, rank) && assembly in rank
    modifies assemblies
    ensures assemblies.items == Walk(w, rank, assembly, old(assemblies.items))
    ensures old(assemblies.items) <= assemblies.items
    ensures NoDuplicates(old(assemblies.items)) ==> NoDuplicates(assemblies.items)
    ensures forall x :: x in assemblies.items <==> x in old(assemblies.items) || Reachable(w, assembly, x)
    decreases rank[assembly]
  {
    ghost var before := assemblies.items;
    var references := GetReferencedAssemblies(w, assembly);
    var k := 0;
    while k < |references|
      invariant 0 <= k <= |references|
      invariant assemblies.items == WalkRefs(w, rank, assembly, k, before)
    {
      var name := references[k];
      assert name in GetReferencedAssemblies(w, assembly);
      if ExcludeAssembly(name) {
        var asb := LoadAssembly(w, name);
        if asb.Some? {
          assert asb == ResolveReference(w, name);
          var present := assemblies.Contains(asb.value);
          if !present {
            assemblies.Add(asb.value);
          }
          FindReferenceAssemblies(w, rank, asb.value, assemblies);
        }
      }
      k := k + 1;
    }
    if NoDuplicates(before) {
      WalkKeepsNoDuplicates(w, rank, assembly, before);
    }
    WalkElements(w, rank, assembly, before);
    forall x ensures x in Reach(w, rank, assembly) <==> Reachable(w, assembly, x) {
      ReachIsReachable(w, rank, assembly, x);
    }
  }

  /** The discovery part of `Bind(Assembly, …)`: the assemblies, in the order
      its reflective loop visits them, then the list is cleared. */
  method DiscoverAssemblies(w: World, ghost rank: map<AssemblyId, nat>, callAssembly: AssemblyId)
    returns (found: seq<AssemblyId>)
    requires Ranked(w, rank) && callAssembly in rank
    ensures found == Walk(w, rank, callAssembly, [])
    ensures NoDuplicates(found)
    ensures forall x :: x in found <==> Reachable(w, callAssembly, x)
    ensures callAssembly !in found
  {
    var assemblies := new AssemblyList();
    FindReferenceAssemblies(w, rank, callAssembly, assemblies);
    found := assemblies.items;
    WalkElements(w, rank, callAssembly, []);
    ReachRanksLower(w, rank, callAssembly);
    assemblies.Clear();
  }
}
