/**
 * DependencyHelperWindow's package check: the six required XR packages,
 * the installed/imported status tables, the guard that keeps a check from
 * starting while one is running, and the evaluation of a finished Package
 * Manager list request.
 *
 * The Package Manager request, its completion and its result are
 * parameters (`RequestState`), as is the set of sample folders that exist
 * on disk (`existingDirs`, standing for Directory.Exists).
 */
module DependencyHelper {
  import opened Wrappers
  import opened VersionCompare

  /** DependencyPackage; `samples` holds the keys of the samples dictionary (empty for null). */
  datatype DependencyPackage = DependencyPackage(
    displayName: string, id: string, packagePath: string, version: string, samples: seq<string>)

  /** An entry of the Package Manager's installed list. */
  datatype PackageInfo = PackageInfo(name: string, version: string)

  /** What the outstanding list request reports when polled. */
  datatype RequestState = InProgress | Succeeded(result: seq<PackageInfo>) | Failed(message: string)

  const XRInteractionToolkitId: string := "com.unity.xr.interaction.toolkit"
  const StarterAssets: string := "Starter Assets"

  /** The packages InitializePackageList adds, in order. */
  const RequiredPackages: seq<DependencyPackage> := [
    DependencyPackage("AR Foundation", "com.unity.xr.arfoundation",
      "Packages/DependencyHelper/PackagesToImport/ARFoundation.unitypackage", "6.0.5", []),
    DependencyPackage("Google ARCore XR Plugin", "com.unity.xr.arcore",
      "Packages/DependencyHelper/PackagesToImport/GoogleARCoreXRPlugin.unitypackage", "6.0.5", []),
    DependencyPackage("XR Core Utilities", "com.unity.xr.core-utils",
      "Packages/DependencyHelper/PackagesToImport/XRCoreUtilities.unitypackage", "2.5.1", []),
    DependencyPackage("XR Interaction Toolkit", XRInteractionToolkitId,
      "Packages/DependencyHelper/PackagesToImport/XRInteractionToolkit.unitypackage", "3.0.7", [StarterAssets]),
    DependencyPackage("XR Legacy Input Helpers", "com.unity.xr.legacyinputhelpers",
      "Packages/DependencyHelper/PackagesToImport/XRLegacyInputHelpers.unitypackage", "2.1.12", []),
    DependencyPackage("XR Plugin Management", "com.unity.xr.management",
      "Packages/DependencyHelper/PackagesToImport/XRPluginManagement.unitypackage", "4.5.0", [])
  ]

  /** The sampleStatus key of sample `key` of package `p`. */
  function SampleId(p: DependencyPackage, key: string): (r: string)
    ensures |r| == |p.id| + 1 + |key| && r[..|p.id|] == p.id && r[|p.id|] == ':' && r[|p.id| + 1..] == key
  {
    p.id + ":" + key
  }

  /** Where an imported sample lives: Assets/Samples/<display name>/<installed version>/Starter Assets. */
  function SamplePath(p: DependencyPackage, installed: PackageInfo): string
  {
    "Assets/Samples/" + p.displayName + "/" + installed.version + "/" + StarterAssets
  }

  /** Some package of the list has id `k`. */
  predicate Named(pkgs: seq<DependencyPackage>, k: string)
  {
    exists i :: 0 <= i < |pkgs| && pkgs[i].id == k
  }

  /** Some package of the list has a sample whose key is `k`. */
  predicate SampleNamed(pkgs: seq<DependencyPackage>, k: string)
  {
    exists i, j :: 0 <= i < |pkgs| && 0 <= j < |pkgs[i].samples| && SampleId(pkgs[i], pkgs[i].samples[j]) == k
  }

  predicate DistinctIds(pkgs: seq<DependencyPackage>)
  {
    forall i, j :: 0 <= i < j < |pkgs| ==> pkgs[i].id != pkgs[j].id
  }

  // ---------------------------------------------------------------------
  // Initial status
  // ---------------------------------------------------------------------

  /** The package table after the initialisation loop has seen `pkgs`. */
  function InitPackages(ps: map<string, bool>, pkgs: seq<DependencyPackage>): map<string, bool>
  {
    if |pkgs| == 0 then ps
    else InitPackages(ps, pkgs[..|pkgs| - 1])[pkgs[|pkgs| - 1].id := false]
  }

  /** The sample keys of one package, marked not imported. */
  function InitSamplesOf(ss: map<string, bool>, p: DependencyPackage, keys: seq<string>): map<string, bool>
  {
    if |keys| == 0 then ss
    else InitSamplesOf(ss, p, keys[..|keys| - 1])[SampleId(p, keys[|keys| - 1]) := false]
  }

  /** The sample table after the initialisation loop has seen `pkgs`. */
  function InitSamples(ss: map<string, bool>, pkgs: seq<DependencyPackage>): map<string, bool>
  {
    if |pkgs| == 0 then ss
    else
      var p := pkgs[|pkgs| - 1];
      InitSamplesOf(InitSamples(ss, pkgs[..|pkgs| - 1]), p, p.samples)
  }

  /** Every listed package is marked not installed; other entries are kept. */
  lemma {:induction false} InitPackagesFacts(ps: map<string, bool>, pkgs: seq<DependencyPackage>, k: string)
    ensures Named(pkgs, k) ==> k in InitPackages(ps, pkgs) && !InitPackages(ps, pkgs)[k]
    ensures !Named(pkgs, k) ==> (k in InitPackages(ps, pkgs) <==> k in ps)
    ensures !Named(pkgs, k) && k in ps ==> InitPackages(ps, pkgs)[k] == ps[k]
  {
    if |pkgs| > 0 {
      var init := pkgs[..|pkgs| - 1];
      InitPackagesFacts(ps, init, k);
      if Named(pkgs, k) && pkgs[|pkgs| - 1].id != k {
        var i :| 0 <= i < |pkgs| && pkgs[i].id == k;
        assert init[i].id == k;
      }
      if Named(init, k) {
        var i :| 0 <= i < |init| && init[i].id == k;
        assert pkgs[i].id == k;
      }
    }
  }

  lemma {:induction false} InitSamplesOfFacts(ss: map<string, bool>, p: DependencyPackage, keys: seq<string>, k: string)
    ensures (exists j :: 0 <= j < |keys| && SampleId(p, keys[j]) == k) ==>
      k in InitSamplesOf(ss, p, keys) && !InitSamplesOf(ss, p, keys)[k]
    ensures !(exists j :: 0 <= j < |keys| && SampleId(p, keys[j]) == k) ==>
      (k in InitSamplesOf(ss, p, keys) <==> k in ss) && (k in ss ==> InitSamplesOf(ss, p, keys)[k] == ss[k])
  {
    if |keys| > 0 {
      var init := keys[..|keys| - 1];
      InitSamplesOfFacts(ss, p, init, k);
      if exists j :: 0 <= j < |keys| && SampleId(p, keys[j]) == k {
        var j :| 0 <= j < |keys| && SampleId(p, keys[j]) == k;
        if j < |keys| - 1 {
          assert SampleId(p, init[j]) == k;
        }
      }
      if exists j :: 0 <= j < |init| && SampleId(p, init[j]) == k {
        var j :| 0 <= j < |init| && SampleId(p, init[j]) == k;
        assert SampleId(p, keys[j]) == k;
      }
    }
  }

  /** Every sample of every listed package is marked not imported; other entries are kept. */
  lemma {:induction false} InitSamplesFacts(ss: map<string, bool>, pkgs: seq<DependencyPackage>, k: string)
    ensures SampleNamed(pkgs, k) ==> k in InitSamples(ss, pkgs) && !InitSamples(ss, pkgs)[k]
    ensures !SampleNamed(pkgs, k) ==> (k in InitSamples(ss, pkgs) <==> k in ss)
    ensures !SampleNamed(pkgs, k) && k in ss ==> InitSamples(ss, pkgs)[k] == ss[k]
  {
    if |pkgs| > 0 {
      var init := pkgs[..|pkgs| - 1];
      var p := pkgs[|pkgs| - 1];
      InitSamplesFacts(ss, init, k);
      InitSamplesOfFacts(InitSamples(ss, init), p, p.samples, k);
      if SampleNamed(pkgs, k) && !(exists j :: 0 <= j < |p.samples| && SampleId(p, p.samples[j]) == k) {
        var i, j :| 0 <= i < |pkgs| && 0 <= j < |pkgs[i].samples| && SampleId(pkgs[i], pkgs[i].samples[j]) == k;
        assert i < |pkgs| - 1;
        assert init[i] == pkgs[i];
      }
      if SampleNamed(init, k) {
        var i, j :| 0 <= i < |init| && 0 <= j < |init[i].samples| && SampleId(init[i], init[i].samples[j]) == k;
        assert pkgs[i] == init[i];
      }
      if exists j :: 0 <= j < |p.samples| && SampleId(p, p.samples[j]) == k {
        var j :| 0 <= j < |p.samples| && SampleId(p, p.samples[j]) == k;
        assert pkgs[|pkgs| - 1] == p;
      }
    }
  }

  // ---------------------------------------------------------------------
  // Evaluating a finished list request
  // ---------------------------------------------------------------------

  /** The status tables. */
  datatype Statuses = Statuses(packages: map<string, bool>, samples: map<string, bool>)

  /** The first installed entry named `id` (the inner loop breaks at it). */
  function FirstNamed(installed: seq<PackageInfo>, id: string): (r: Option<nat>)
    ensures r.Some? ==>
      && r.value < |installed| && installed[r.value].name == id
      && forall k :: 0 <= k < r.value ==> installed[k].name != id
    ensures r.None? ==> forall k :: 0 <= k < |installed| ==> installed[k].name != id
  {
    if |installed| == 0 then None
    else if installed[0].name == id then Some(0)
    else match FirstNamed(installed[1..], id)
      case None => None
      case Some(j) => Some(j + 1)
  }

  /** CheckSampleStatus: only the XR Interaction Toolkit's Starter Assets folder is looked for. */
  function SampleCheck(ss: map<string, bool>, p: DependencyPackage, installed: PackageInfo, existingDirs: set<string>): (r: map<string, bool>)
    ensures p.id != XRInteractionToolkitId ==> r == ss
    ensures p.id == XRInteractionToolkitId ==>
      r == ss[SampleId(p, StarterAssets) := SamplePath(p, installed) in existingDirs]
  {
    if p.id == XRInteractionToolkitId then ss[SampleId(p, StarterAssets) := SamplePath(p, installed) in existingDirs]
    else ss
  }

  /**
   * One turn of the outer loop: the package is first marked not
   * installed; the first entry with its id decides. The flag is false
   * where CompareVersions throws, which ends the whole evaluation.
   */
  function CheckOne(st: Statuses, p: DependencyPackage, installed: seq<PackageInfo>, existingDirs: set<string>): (Statuses, bool)
  {
    var ps := st.packages[p.id := false];
    match FirstNamed(installed, p.id)
    case None => (Statuses(ps, st.samples), true)
    case Some(j) =>
      if p.version == "" then
        (Statuses(ps[p.id := true], if |p.samples| > 0 then SampleCheck(st.samples, p, installed[j], existingDirs) else st.samples), true)
      else match CompareVersionsSpec(installed[j].version, p.version)
        case None => (Statuses(ps, st.samples), false)
        case Some(c) =>
          if c >= 0 then
            (Statuses(ps[p.id := true], if |p.samples| > 0 then SampleCheck(st.samples, p, installed[j], existingDirs) else st.samples), true)
          else (Statuses(ps, st.samples), true)
  }

  /** The outer loop from the current package onwards; it stops at the first exception. */
  function CheckAll(st: Statuses, pkgs: seq<DependencyPackage>, installed: seq<PackageInfo>, existingDirs: set<string>): (Statuses, bool)
    decreases |pkgs|
  {
    if |pkgs| == 0 then (st, true)
    else
      var (st', ok) := CheckOne(st, pkgs[0], installed, existingDirs);
      if !ok then (st', false) else CheckAll(st', pkgs[1..], installed, existingDirs)
  }

  /** A package counts as installed: its first entry in the list has a version at least the required one. */
  predicate Installed(p: DependencyPackage, installed: seq<PackageInfo>)
  {
    exists j :: 0 <= j < |installed| && installed[j].name == p.id
      && (forall k :: 0 <= k < j ==> installed[k].name != p.id)
      && (p.version == "" || (CompareVersionsSpec(installed[j].version, p.version).Some?
                              && CompareVersionsSpec(installed[j].version, p.version).value >= 0))
  }

  /** The comparison throws for this package: its first entry's version or the required one does not parse. */
  predicate Throws(p: DependencyPackage, installed: seq<PackageInfo>)
  {
    exists j :: 0 <= j < |installed| && installed[j].name == p.id
      && (forall k :: 0 <= k < j ==> installed[k].name != p.id)
      && p.version != "" && CompareVersionsSpec(installed[j].version, p.version).None?
  }

  lemma CheckOneFacts(st: Statuses, p: DependencyPackage, installed: seq<PackageInfo>, existingDirs: set<string>)
    ensures var (st', ok) := CheckOne(st, p, installed, existingDirs);
      && (ok <==> !Throws(p, installed))
      && p.id in st'.packages
      && (ok ==> (st'.packages[p.id] <==> Installed(p, installed)))
      && (!ok ==> !st'.packages[p.id])
      && st'.packages.Keys == st.packages.Keys + {p.id}
      && (forall k :: k in st.packages && k != p.id ==> st'.packages[k] == st.packages[k])
      && (!Installed(p, installed) ==> st'.samples == st.samples)
  {
    match FirstNamed(installed, p.id)
    case None =>
    case Some(j) =>
      assert forall i :: (0 <= i < |installed| && installed[i].name == p.id
        && (forall k :: 0 <= k < i ==> installed[k].name != p.id)) ==> i == j;
  }

  /**
   * A successful evaluation over packages with distinct ids marks each
   * package installed exactly when its first installed entry is new
   * enough; the entries of other ids are kept.
   */
  lemma {:induction false} CheckAllInstalledIff(st: Statuses, pkgs: seq<DependencyPackage>, installed: seq<PackageInfo>, existingDirs: set<string>)
    requires DistinctIds(pkgs)
    decreases |pkgs|
    ensures var (st', ok) := CheckAll(st, pkgs, installed, existingDirs);
      && (ok <==> forall i :: 0 <= i < |pkgs| ==> !Throws(pkgs[i], installed))
      && (ok ==> forall i :: 0 <= i < |pkgs| ==>
                   pkgs[i].id in st'.packages && (st'.packages[pkgs[i].id] <==> Installed(pkgs[i], installed)))
      && (forall k :: k in st.packages && !Named(pkgs, k) ==> k in st'.packages && st'.packages[k] == st.packages[k])
  {
    if |pkgs| > 0 {
      var (s1, ok1) := CheckOne(st, pkgs[0], installed, existingDirs);
      CheckOneFacts(st, pkgs[0], installed, existingDirs);
      var rest := pkgs[1..];
      assert DistinctIds(rest) by {
        forall i, j | 0 <= i < j < |rest| ensures rest[i].id != rest[j].id {
          assert rest[i] == pkgs[i + 1] && rest[j] == pkgs[j + 1];
        }
      }
      CheckAllInstalledIff(s1, rest, installed, existingDirs);
      var (st', ok) := CheckAll(st, pkgs, installed, existingDirs);
      if ok1 {
        assert (st', ok) == CheckAll(s1, rest, installed, existingDirs);
        forall k | k in st.packages && !Named(pkgs, k)
          ensures k in st'.packages && st'.packages[k] == st.packages[k]
        {
          assert pkgs[0].id != k;
        }
        if ok {
          forall i | 0 <= i < |pkgs|
            ensures pkgs[i].id in st'.packages && (st'.packages[pkgs[i].id] <==> Installed(pkgs[i], installed))
          {
            if i == 0 {
              assert !Named(rest, pkgs[0].id);
            } else {
              assert pkgs[i] == rest[i - 1];
            }
          }
        }
        forall i | 0 <= i < |pkgs| && !Throws(pkgs[i], installed) && i > 0
          ensures !Throws(rest[i - 1], installed)
        {
          assert pkgs[i] == rest[i - 1];
        }
        if !ok {
          var m :| 0 <= m < |rest| && Throws(rest[m], installed);
          assert Throws(pkgs[m + 1], installed);
        }
      } else {
        assert Throws(pkgs[0], installed);
        forall k | k in st.packages && !Named(pkgs, k)
          ensures k in st'.packages && st'.packages[k] == st.packages[k]
        {
          assert pkgs[0].id != k;
        }
      }
    }
  }

  // ---------------------------------------------------------------------
  // The window
  // ---------------------------------------------------------------------

  class DependencyHelperWindow {
    var requiredPackages: seq<DependencyPackage>
    var packageStatus: map<string, bool>
    var sampleStatus: map<string, bool>
    /** listRequest != null */
    var hasListRequest: bool
    /** How many times CheckPackageListProgress is registered on EditorApplication.update. */
    var subscriptions: nat
    var isCheckingPackages: bool
    var isSamplesCheckInitiated: bool

    /** At most one poll is registered, and only while a check is running with a request out. */
    ghost predicate Valid()
      reads this
    {
      subscriptions <= 1 && (subscriptions == 1 ==> isCheckingPackages && hasListRequest)
    }

    /** The field initialisers. */
    constructor ()
      ensures Valid()
      ensures requiredPackages == [] && packageStatus == map[] && sampleStatus == map[]
      ensures !hasListRequest && subscriptions == 0 && !isCheckingPackages && !isSamplesCheckInitiated
    {
      requiredPackages := [];
      packageStatus := map[];
      sampleStatus := map[];
      hasListRequest := false;
      subscriptions := 0;
      isCheckingPackages := false;
      isSamplesCheckInitiated := false;
    }

    /** OnEnable: initialise the package list (styles are left out), then start a check. */
    method OnEnable()
      requires Valid()
      modifies this
      ensures Valid()
      ensures requiredPackages == old(requiredPackages) + RequiredPackages
      ensures packageStatus == InitPackages(old(packageStatus), requiredPackages)
      ensures sampleStatus == InitSamples(old(sampleStatus), requiredPackages)
      ensures !old(isCheckingPackages) ==> isCheckingPackages && hasListRequest && subscriptions == 1
      ensures old(isCheckingPackages) ==> isCheckingPackages && hasListRequest == old(hasListRequest) && subscriptions == old(subscriptions)
      ensures isSamplesCheckInitiated == old(isSamplesCheckInitiated)
    {
      InitializePackageList();
      CheckPackageStatus();
    }

    /** InitializePackageList: add the six packages, then mark every listed package and sample as absent. */
    method InitializePackageList()
      modifies this
      ensures requiredPackages == old(requiredPackages) + RequiredPackages
      ensures packageStatus == InitPackages(old(packageStatus), requiredPackages)
      ensures sampleStatus == InitSamples(old(sampleStatus), requiredPackages)
      ensures hasListRequest == old(hasListRequest) && subscriptions == old(subscriptions)
      ensures isCheckingPackages == old(isCheckingPackages) && isSamplesCheckInitiated == old(isSamplesCheckInitiated)
    {
      requiredPackages := requiredPackages + RequiredPackages;
      var packages := requiredPackages;
      ghost var ps0 := packageStatus;
      ghost var ss0 := sampleStatus;
      for i := 0 to |packages|
        invariant requiredPackages == packages
        invariant packageStatus == InitPackages(ps0, packages[..i])
        invariant sampleStatus == InitSamples(ss0, packages[..i])
        invariant hasListRequest == old(hasListRequest) && subscriptions == old(subscriptions)
        invariant isCheckingPackages == old(isCheckingPackages) && isSamplesCheckInitiated == old(isSamplesCheckInitiated)
      {
        var package := packages[i];
        assert packages[..i + 1][..i] == packages[..i];
        packageStatus := packageStatus[package.id := false];
        ghost var before := sampleStatus;
        for j := 0 to |package.samples|
          invariant sampleStatus == InitSamplesOf(before, package, package.samples[..j])
          invariant requiredPackages == packages && packageStatus == InitPackages(ps0, packages[..i + 1])
          invariant hasListRequest == old(hasListRequest) && subscriptions == old(subscriptions)
          invariant isCheckingPackages == old(isCheckingPackages) && isSamplesCheckInitiated == old(isSamplesCheckInitiated)
        {
          assert package.samples[..j + 1][..j] == package.samples[..j];
          sampleStatus := sampleStatus[SampleId(package, package.samples[j]) := false];
        }
        assert package.samples[..|package.samples|] == package.samples;
      }
      assert packages[..|packages|] == packages;
    }

    /** CheckPackageStatus: does nothing while a check runs; otherwise requests the list and registers the poll. */
    method CheckPackageStatus()
      requires Valid()
      modifies this
      ensures Valid()
      ensures old(isCheckingPackages) ==> unchanged(this)
      ensures !old(isCheckingPackages) ==> isCheckingPackages && hasListRequest && subscriptions == old(subscriptions) + 1
      ensures requiredPackages == old(requiredPackages) && packageStatus == old(packageStatus) && sampleStatus == old(sampleStatus)
      ensures isSamplesCheckInitiated == old(isSamplesCheckInitiated)
    {
      if isCheckingPackages {
        return;
      }
      isCheckingPackages := true;
      hasListRequest := true;
      subscriptions := subscriptions + 1;
    }

    /** CheckSampleStatus. */
    method CheckSampleStatus(package: DependencyPackage, installedPackage: PackageInfo, existingDirs: set<string>)
      modifies this
      ensures sampleStatus == SampleCheck(old(sampleStatus), package, installedPackage, existingDirs)
      ensures requiredPackages == old(requiredPackages) && packageStatus == old(packageStatus)
      ensures hasListRequest == old(hasListRequest) && subscriptions == old(subscriptions)
      ensures isCheckingPackages == old(isCheckingPackages) && isSamplesCheckInitiated == old(isSamplesCheckInitiated)
    {
      if package.id == XRInteractionToolkitId {
        var sampleId := SampleId(package, StarterAssets);
        var samplePath := SamplePath(package, installedPackage);
        var isSampleImported := samplePath in existingDirs;
        sampleStatus := sampleStatus[sampleId := isSampleImported];
      }
    }

    /** One package of the success branch: the inner loop over the installed list, with its break. */
    method CheckPackage(package: DependencyPackage, installed: seq<PackageInfo>, existingDirs: set<string>) returns (ok: bool)
      modifies this
      ensures (Statuses(packageStatus, sampleStatus), ok)
        == CheckOne(Statuses(old(packageStatus), old(sampleStatus)), package, installed, existingDirs)
      ensures requiredPackages == old(requiredPackages)
      ensures hasListRequest == old(hasListRequest) && subscriptions == old(subscriptions)
      ensures isCheckingPackages == old(isCheckingPackages) && isSamplesCheckInitiated == old(isSamplesCheckInitiated)
    {
      packageStatus := packageStatus[package.id := false];
      var j := 0;
      while j < |installed|
        invariant 0 <= j <= |installed|
        invariant forall k :: 0 <= k < j ==> installed[k].name != package.id
        invariant packageStatus == old(packageStatus)[package.id := false] && sampleStatus == old(sampleStatus)
        invariant requiredPackages == old(requiredPackages)
        invariant hasListRequest == old(hasListRequest) && subscriptions == old(subscriptions)
        invariant isCheckingPackages == old(isCheckingPackages) && isSamplesCheckInitiated == old(isSamplesCheckInitiated)
      {
        var installedPackage := installed[j];
        if installedPackage.name == package.id {
          assert FirstNamed(installed, package.id) == Some(j);
          if package.version == "" {
            packageStatus := packageStatus[package.id := true];
            if |package.samples| > 0 {
              CheckSampleStatus(package, installedPackage, existingDirs);
            }
          } else {
            var c := CompareVersions(installedPackage.version, package.version);
            if c.None? {
              return false;
            }
            if c.value >= 0 {
              packageStatus := packageStatus[package.id := true];
              if |package.samples| > 0 {
                CheckSampleStatus(package, installedPackage, existingDirs);
              }
            }
          }
          return true;
        }
        j := j + 1;
      }
      return true;
    }

    /**
     * CheckPackageListProgress, run on every editor update while
     * registered. Without a request, or with one still running, nothing
     * happens. Otherwise the poll is unregistered and, on success, every
     * required package is evaluated. A version that does not parse throws
     * (r is Fail): the flags are then left as they were, so the check
     * stays marked as running.
     */
    method CheckPackageListProgress(request: RequestState, existingDirs: set<string>) returns (r: Outcome<string>)
      requires Valid()
      modifies this
      ensures Valid()
      ensures !old(hasListRequest) || request.InProgress? ==> unchanged(this) && r == Pass
      ensures old(hasListRequest) && !request.InProgress? ==>
        && subscriptions == (if old(subscriptions) > 0 then old(subscriptions) - 1 else 0)
        && hasListRequest && requiredPackages == old(requiredPackages)
      ensures old(hasListRequest) && request.Failed? ==>
        && packageStatus == old(packageStatus) && sampleStatus == old(sampleStatus)
        && !isCheckingPackages && isSamplesCheckInitiated && r == Pass
      ensures old(hasListRequest) && request.Succeeded? ==>
        var (st, ok) := CheckAll(Statuses(old(packageStatus), old(sampleStatus)), requiredPackages, request.result, existingDirs);
        && packageStatus == st.packages && sampleStatus == st.samples
        && (ok ==> !isCheckingPackages && isSamplesCheckInitiated && r == Pass)
        && (!ok ==> isCheckingPackages == old(isCheckingPackages)
                    && isSamplesCheckInitiated == old(isSamplesCheckInitiated) && r.Fail?)
    {
      if !hasListRequest || request.InProgress? {
        return Pass;
      }
      if subscriptions > 0 {
        subscriptions := subscriptions - 1;
      }
      if request.Succeeded? {
        var packages := requiredPackages;
        ghost var target := CheckAll(Statuses(packageStatus, sampleStatus), packages, request.result, existingDirs);
        for i := 0 to |packages|
          invariant CheckAll(Statuses(packageStatus, sampleStatus), packages[i..], request.result, existingDirs) == target
          invariant requiredPackages == packages && packages == old(requiredPackages) && hasListRequest
          invariant subscriptions == (if old(subscriptions) > 0 then old(subscriptions) - 1 else 0)
          invariant isCheckingPackages == old(isCheckingPackages) && isSamplesCheckInitiated == old(isSamplesCheckInitiated)
        {
          assert packages[i..][0] == packages[i];
          assert packages[i..][1..] == packages[i + 1..];
          var ok := CheckPackage(packages[i], request.result, existingDirs);
          if !ok {
            return Fail("FormatException");
          }
        }
      }
      isCheckingPackages := false;
      isSamplesCheckInitiated := true;
      r := Pass;
    }
  }

  /** The six required packages have distinct ids, so each one's status is its own. */
  lemma RequiredPackagesDistinct()
    ensures |RequiredPackages| == 6 && DistinctIds(RequiredPackages)
  {
  }

  /**
   * After a check that threw, the window stays marked as checking, so a
   * new CheckPackageStatus (the refresh button, or a delayed re-check)
   * requests nothing.
   */
  method StuckAfterThrow(w: DependencyHelperWindow, request: RequestState, existingDirs: set<string>)
    requires w.Valid() && w.hasListRequest && w.isCheckingPackages
    modifies w
    ensures w.Valid()
    ensures request.Succeeded? && !CheckAll(Statuses(old(w.packageStatus), old(w.sampleStatus)), w.requiredPackages, request.result, existingDirs).1
      ==> w.isCheckingPackages && w.subscriptions == 0
  {
    var r := w.CheckPackageListProgress(request, existingDirs);
    if r.Fail? {
      w.CheckPackageStatus();
    }
  }
}
