/**
 * The install pass at the end of `main` in Lazzy.py: for each selected key,
 * download the installer, run it silently, remove it, and count successes.
 *
 * The network download (`download_file`) and the silent install
 * (`install_silent`) are oracles: `downloadOk[i]` and `launches[i]` are their
 * results for the i-th selected key. The install oracle is consulted only
 * after a successful download.
 */
module Install {
  import opened Catalog

  /**
   * What `install_silent` does with one installer. It catches only a non-zero
   * exit status and the timeout; any `OSError` raised by `subprocess.run`
   * (a file that is not an executable, one that needs elevation, one that has
   * vanished) escapes it, and nothing in `main` catches it either.
   */
  datatype Launch =
    | Succeeds      // exit status 0: returns True
    | ReturnsFalse  // non-zero exit status or the 300-second timeout: returns False
    | Raises        // an uncaught exception: the program stops with a traceback

  /** What happened to one selected key. */
  datatype ItemOutcome =
    | Missing         // the key is not in the catalog: a warning, nothing else
    | DownloadFailed  // `download_file` returned False: no install, no removal
    | InstallFailed   // downloaded, `install_silent` returned False, installer removed
    | Installed       // downloaded, installed, installer removed
    | LaunchRaised    // downloaded, `install_silent` raised: no removal, and the pass stops

  /** `os.remove(installer_path)` is attempted exactly after a download whose install returned. */
  predicate InstallerRemoved(o: ItemOutcome) {
    o == InstallFailed || o == Installed
  }

  /** The outcome of one key, from whether it is known, downloaded, and what its install did. */
  function Outcome(known: bool, downloaded: bool, launch: Launch): ItemOutcome {
    if !known then Missing
    else if !downloaded then DownloadFailed
    else match launch
      case Succeeds => Installed
      case ReturnsFalse => InstallFailed
      case Raises => LaunchRaised
  }

  /** The number of items that were installed. */
  function CountInstalled(trail: seq<ItemOutcome>): (n: nat)
    ensures n <= |trail|
    decreases |trail|
  {
    if trail == [] then 0
    else CountInstalled(trail[..|trail| - 1]) + (if trail[|trail| - 1] == Installed then 1 else 0)
  }

  lemma CountInstalledAppend(trail: seq<ItemOutcome>, o: ItemOutcome)
    ensures CountInstalled(trail + [o]) == CountInstalled(trail) + (if o == Installed then 1 else 0)
  {
    assert (trail + [o])[..|trail|] == trail;
  }

  /** The tally reaches the total exactly when every item installed, and is zero when none did. */
  lemma {:induction false} CountInstalledExtremes(trail: seq<ItemOutcome>)
    ensures CountInstalled(trail) == |trail| <==> forall i :: 0 <= i < |trail| ==> trail[i] == Installed
    ensures CountInstalled(trail) == 0 <==> forall i :: 0 <= i < |trail| ==> trail[i] != Installed
    decreases |trail|
  {
    if trail != [] {
      var p := trail[..|trail| - 1];
      CountInstalledExtremes(p);
      assert forall i :: 0 <= i < |p| ==> p[i] == trail[i];
      if CountInstalled(trail) == |trail| {
        assert CountInstalled(p) == |p|;
      }
      if CountInstalled(trail) == 0 {
        assert CountInstalled(p) == 0;
      }
    }
  }

  /**
   * The `for` loop over `selected_apps` with its `successful_installs` counter.
   * `trail` has one outcome per key processed: all of them, or those up to and
   * including the first whose install raised.
   */
  method InstallPass(apps: seq<Entry>, selected: seq<string>, downloadOk: seq<bool>, launches: seq<Launch>)
    returns (successes: nat, trail: seq<ItemOutcome>)
    requires |downloadOk| >= |selected| && |launches| >= |selected|
    ensures |trail| <= |selected|
    ensures successes == CountInstalled(trail) && successes <= |trail|
    ensures forall i :: 0 <= i < |trail| ==>
      (trail[i] == Missing <==> selected[i] !in Keys(apps))
    ensures forall i :: 0 <= i < |trail| ==>
      (trail[i] == DownloadFailed <==> selected[i] in Keys(apps) && !downloadOk[i])
    ensures forall i :: 0 <= i < |trail| ==>
      (trail[i] == Installed <==> selected[i] in Keys(apps) && downloadOk[i] && launches[i] == Succeeds)
    ensures forall i :: 0 <= i < |trail| ==>
      (trail[i] == LaunchRaised <==> selected[i] in Keys(apps) && downloadOk[i] && launches[i] == Raises)
    ensures forall i :: 0 <= i < |trail| ==>
      (InstallerRemoved(trail[i]) <==> selected[i] in Keys(apps) && downloadOk[i] && launches[i] != Raises)
    ensures forall i :: 0 <= i < |trail| ==>
      trail[i] == Outcome(selected[i] in Keys(apps), downloadOk[i], launches[i])
    ensures forall i :: 0 <= i < |trail| - 1 ==> trail[i] != LaunchRaised
    ensures |trail| < |selected| ==> trail != [] && trail[|trail| - 1] == LaunchRaised
  {
    successes := 0;
    trail := [];
    for i := 0 to |selected|
      invariant |trail| == i
      invariant successes == CountInstalled(trail)
      invariant forall j :: 0 <= j < i ==> trail[j] != LaunchRaised
      invariant forall j :: 0 <= j < i ==>
        trail[j] == Outcome(selected[j] in Keys(apps), downloadOk[j], launches[j])
    {
      var outcome: ItemOutcome;
      match Lookup(apps, selected[i]) {
        case None =>
          outcome := Missing;
        case Some(_) =>
          if downloadOk[i] {
            match launches[i] {
              case Succeeds =>
                successes := successes + 1;
                outcome := Installed;
              case ReturnsFalse =>
                outcome := InstallFailed;
              case Raises =>
                outcome := LaunchRaised;
            }
          } else {
            outcome := DownloadFailed;
          }
      }
      assert outcome == Outcome(selected[i] in Keys(apps), downloadOk[i], launches[i]);
      CountInstalledAppend(trail, outcome);
      trail := trail + [outcome];
      if outcome == LaunchRaised {
        return;
      }
    }
  }
}
