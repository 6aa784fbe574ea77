/**
 * `main` of Lazzy.py: the catalog gate, the selection loop, the
 * empty-selection and confirmation gates, the `downloads` folder and the
 * install pass.
 *
 * `fetched` is what `fetch_apps` returned (None on a network or JSON error);
 * `inputs` are the console lines; `folderOk` says whether
 * `os.makedirs("downloads", exist_ok=True)` returns (it raises, for instance,
 * when a plain file named `downloads` exists); `downloadOk` and `launches` are
 * the oracles of the install pass.
 */
module Session {
  import opened Text
  import opened Catalog
  import opened Menu
  import opened Install

  datatype SessionOutcome =
    | NoCatalog        // `if not apps`: nothing fetched, or an empty catalog
    | InputEnded       // `input()` ran out of lines: EOFError ends the program
    | NothingSelected  // the loop ended with an empty selection
    | Cancelled        // the confirmation was not 't'
    | FolderFailed     // `os.makedirs` raised: the program stops with a traceback
    | Aborted(trail: seq<ItemOutcome>)  // `install_silent` raised: traceback, no summary
    | Finished(successes: nat, total: nat, trail: seq<ItemOutcome>)

  /** Distinct keys drawn from `b` are no more numerous than `b`. */
  lemma {:induction false} DistinctBound(a: seq<string>, b: seq<string>)
    requires NoDup(a) && forall x :: x in a ==> x in b
    ensures |a| <= |b|
    decreases |a|
  {
    if a != [] {
      var p := a[..|a| - 1];
      var x := a[|a| - 1];
      assert x == a[|a| - 1] && x in b;
      var i :| 0 <= i < |b| && b[i] == x;
      var rest := b[..i] + b[i + 1..];
      forall y | y in p ensures y in rest {
        var k :| 0 <= k < |p| && p[k] == y;
        assert a[k] == y && a[|a| - 1] == x;
        assert y in b;
        var j :| 0 <= j < |b| && b[j] == y;
        if j < i {
          assert rest[j] == y;
        } else {
          assert rest[j - 1] == y;
        }
      }
      DistinctBound(p, rest);
    }
  }

  /** A selection that keeps the loop invariant never holds more keys than the catalog. */
  lemma SelectionFitsCatalog(apps: seq<Entry>, selected: seq<string>)
    requires SelectionOk(apps, selected)
    ensures |selected| <= |apps|
  {
    DistinctBound(selected, Keys(apps));
  }

  /** The pass covers every key exactly when no install of a known, downloaded key raised. */
  lemma PassCompletes(apps: seq<Entry>, selected: seq<string>, downloadOk: seq<bool>, launches: seq<Launch>,
                      trail: seq<ItemOutcome>)
    requires SelectionOk(apps, selected)
    requires |trail| <= |selected| <= |downloadOk| && |selected| <= |launches|
    requires forall i :: 0 <= i < |trail| ==>
      (trail[i] == LaunchRaised <==> selected[i] in Keys(apps) && downloadOk[i] && launches[i] == Raises)
    requires forall i :: 0 <= i < |trail| - 1 ==> trail[i] != LaunchRaised
    requires |trail| < |selected| ==> trail != [] && trail[|trail| - 1] == LaunchRaised
    ensures (|trail| == |selected| && forall i :: 0 <= i < |trail| ==> trail[i] != LaunchRaised) <==>
      forall i :: 0 <= i < |selected| ==> !(downloadOk[i] && launches[i] == Raises)
  {
    if |trail| < |selected| {
      assert selected[|trail| - 1] in selected;
    }
  }

  /** With every selected key in the catalog, an item's outcome depends only on the two oracles. */
  lemma KnownKeysPass(apps: seq<Entry>, selected: seq<string>, downloadOk: seq<bool>, launches: seq<Launch>,
                      trail: seq<ItemOutcome>)
    requires SelectionOk(apps, selected)
    requires |trail| <= |selected| <= |downloadOk| && |selected| <= |launches|
    requires forall i :: 0 <= i < |trail| ==>
      trail[i] == Outcome(selected[i] in Keys(apps), downloadOk[i], launches[i])
    ensures forall i :: 0 <= i < |trail| ==>
      && trail[i] == Outcome(true, downloadOk[i], launches[i])
      && trail[i] != Missing
      && (trail[i] == Installed <==> downloadOk[i] && launches[i] == Succeeds)
      && (InstallerRemoved(trail[i]) <==> downloadOk[i] && launches[i] != Raises)
  {
    forall i | 0 <= i < |trail| ensures selected[i] in Keys(apps) {
      assert selected[i] in selected;
    }
  }

  /**
   * What `main` reports once the user has confirmed: `os.makedirs` raised, or the
   * pass ran. Its trail holds the outcome of each key processed, in order, as the
   * two oracles decide it; no installer raised before the last key processed. The pass
   * finished (every key, summary printed) exactly when no installer of a downloaded key
   * raised; otherwise it stopped at the first one that did.
   */
  ghost predicate PassReport(selected: seq<string>, folderOk: bool, downloadOk: seq<bool>, launches: seq<Launch>,
                             o: SessionOutcome)
  {
    && |selected| <= |downloadOk| && |selected| <= |launches|
    && (!folderOk ==> o == FolderFailed)
    && (folderOk ==> o.Finished? || o.Aborted?)
    && (folderOk ==>
          (o.Finished? <==> forall i :: 0 <= i < |selected| ==> !(downloadOk[i] && launches[i] == Raises)))
    && (o.Finished? || o.Aborted? ==>
          && |o.trail| <= |selected|
          && (forall i :: 0 <= i < |o.trail| ==> o.trail[i] == Outcome(true, downloadOk[i], launches[i]))
          && (forall i :: 0 <= i < |o.trail| - 1 ==> o.trail[i] != LaunchRaised))
    && (o.Finished? ==>
          && o.total == |selected| == |o.trail|
          && o.successes == CountInstalled(o.trail) <= o.total)
    && (o.Aborted? ==>
          && 0 < |o.trail|
          && o.trail[|o.trail| - 1] == LaunchRaised)
  }

  /** When the first installer raises, the report is that one outcome: no later key is processed. */
  lemma FirstRaiseStopsThePass()
    ensures PassReport(["a", "b", "c"], true, [true, true, true], [Raises, Succeeds, Succeeds], Aborted([LaunchRaised]))
    ensures !PassReport(["a", "b", "c"], true, [true, true, true], [Raises, Succeeds, Succeeds],
                        Aborted([InstallFailed, Installed, LaunchRaised]))
  {
    var downloadOk, launches := [true, true, true], [Raises, Succeeds, Succeeds];
    assert downloadOk[0] && launches[0] == Raises;
    assert Outcome(true, downloadOk[0], launches[0]) == LaunchRaised != InstallFailed;
  }

  /** The end of `main` after the confirmation: create `downloads`, then run the install pass. */
  method InstallStage(apps: seq<Entry>, selected: seq<string>, folderOk: bool,
                      downloadOk: seq<bool>, launches: seq<Launch>)
    returns (o: SessionOutcome, downloadsCreated: bool)
    requires SelectionOk(apps, selected)
    requires |selected| <= |downloadOk| && |selected| <= |launches|
    ensures downloadsCreated <==> folderOk
    ensures PassReport(selected, folderOk, downloadOk, launches, o)
  {
    if !folderOk {
      return FolderFailed, false;
    }
    downloadsCreated := true;
    var successes, trail := InstallPass(apps, selected, downloadOk, launches);
    PassCompletes(apps, selected, downloadOk, launches, trail);
    KnownKeysPass(apps, selected, downloadOk, launches, trail);
    if |trail| == |selected| && (forall i :: 0 <= i < |trail| ==> trail[i] != LaunchRaised) {
      o := Finished(successes, |selected|, trail);
    } else {
      o := Aborted(trail);
    }
  }

  /** One run of `main`. `downloadsCreated` records that `os.makedirs` created or found the folder. */
  method RunSession(fetched: Option<seq<Entry>>, inputs: seq<string>, folderOk: bool,
                    downloadOk: seq<bool>, launches: seq<Launch>)
    returns (o: SessionOutcome, downloadsCreated: bool)
    requires fetched.Some? ==> IsCatalog(fetched.value)
    requires fetched.Some? ==> |downloadOk| >= |fetched.value| && |launches| >= |fetched.value|
    ensures downloadsCreated <==> o.Finished? || o.Aborted?
    ensures o == NoCatalog <==> fetched.None? || fetched.value == []
    ensures fetched.Some? && fetched.value != [] ==>
      var menu := RunMenu(fetched.value, Initial(inputs));
      var selected := menu.state.selected;
      var rest := menu.state.input;
      && (menu.exit == InputExhausted ==> o == InputEnded)
      && (menu.exit != InputExhausted && selected == [] ==> o == NothingSelected)
      && (menu.exit != InputExhausted && selected != [] && rest == [] ==> o == InputEnded)
      && (menu.exit != InputExhausted && selected != [] && rest != [] ==>
            if Lower(rest[0]) != "t" then o == Cancelled
            else |selected| <= |fetched.value| && PassReport(selected, folderOk, downloadOk, launches, o))
  {
    if fetched.None? || fetched.value == [] {
      return NoCatalog, false;
    }
    var apps := fetched.value;
    var menu := SelectApps(apps, inputs);
    if menu.exit == InputExhausted {
      return InputEnded, false;
    }
    var selected := menu.state.selected;
    if selected == [] {
      return NothingSelected, false;
    }
    var rest := menu.state.input;
    if rest == [] {
      return InputEnded, false;
    }
    if Lower(rest[0]) != "t" {
      return Cancelled, false;
    }
    SelectionFitsCatalog(apps, selected);
    o, downloadsCreated := InstallStage(apps, selected, folderOk, downloadOk, launches);
  }
}
