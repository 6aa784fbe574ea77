/**
 * The package-selection loop of `main` in Lazzy.py (the `while True` loop).
 *
 * Console input is a finite sequence of lines, already stripped of surrounding
 * whitespace. One iteration of the loop is the function `Step`; `RunMenu`
 * iterates it until the loop ends; `SelectApps` is the loop itself, proved to
 * compute `RunMenu`.
 */
module Menu {
  import opened Text
  import opened Catalog

  /** The loop's variables: `selected_apps`, `current_filter` and the unread input. */
  datatype MenuState = MenuState(selected: seq<string>, filter: string, input: seq<string>)

  /**
   * How the loop ended: 'q', '0', an answer other than 't' to "add another?",
   * or `input()` finding no more lines (an EOFError that ends the program).
   */
  datatype Exit = Quit | SelectAll | Declined | InputExhausted

  datatype StepResult = Next(state: MenuState) | Done(exit: Exit, state: MenuState)

  function Initial(inputs: seq<string>): MenuState {
    MenuState([], "", inputs)
  }

  /** The filtered mapping `show_menu` returns at the top of an iteration. */
  function View(apps: seq<Entry>, s: MenuState): seq<Entry> {
    Filtered(apps, s.filter)
  }

  /** The automatic reset: a non-empty filter that matches nothing. */
  predicate Resets(apps: seq<Entry>, s: MenuState) {
    |View(apps, s)| == 0 && s.filter != ""
  }

  /** The choice typed at the main prompt, lowered as the source does. */
  function Choice(s: MenuState): (choice: string)
    requires s.input != []
    ensures |choice| == |s.input[0]| && HasNoUpper(choice)
    ensures HasNoUpper(s.input[0]) ==> choice == s.input[0]
  {
    Lower(s.input[0])
  }

  /** Every selection choice is handled by one of these branches, tested in this order. */
  predicate IsCommand(choice: string) {
    choice == "q" || choice == "c" || choice == "" || choice == "0"
  }

  /** One iteration of the loop. Every iteration that goes on either reads input or clears the filter. */
  function Step(apps: seq<Entry>, s: MenuState): (r: StepResult)
    ensures r.Next? ==>
      |r.state.input| < |s.input| ||
      (|r.state.input| == |s.input| && s.filter != "" && r.state.filter == "")
  {
    var view := View(apps, s);
    if |view| == 0 && s.filter != "" then
      Next(MenuState(s.selected, "", s.input))
    else if s.input == [] then
      Done(InputExhausted, s)
    else
      var choice := Lower(s.input[0]);
      var rest := s.input[1..];
      if choice == "q" then
        Done(Quit, MenuState(s.selected, s.filter, rest))
      else if choice == "c" then
        Next(MenuState([], s.filter, rest))
      else if choice == "" then
        if rest == [] then Done(InputExhausted, MenuState(s.selected, s.filter, rest))
        else Next(MenuState(s.selected, rest[0], rest[1..]))
      else if choice == "0" then
        Done(SelectAll, MenuState(Keys(view), s.filter, rest))
      else
        var selected :=
          if choice in Keys(view) && choice !in s.selected then s.selected + [choice] else s.selected;
        if rest == [] then Done(InputExhausted, MenuState(selected, s.filter, rest))
        else if Lower(rest[0]) != "t" then Done(Declined, MenuState(selected, s.filter, rest[1..]))
        else Next(MenuState(selected, s.filter, rest[1..]))
  }

  /** The whole loop: iterate `Step` until it is done. */
  function RunMenu(apps: seq<Entry>, s: MenuState): (r: StepResult)
    ensures r.Done?
    decreases |s.input|, if s.filter != "" then 1 else 0
  {
    match Step(apps, s)
    case Next(t) => RunMenu(apps, t)
    case Done(exit, t) => Done(exit, t)
  }

  // ---------------------------------------------------------------------------
  // What one iteration does, branch by branch.
  // ---------------------------------------------------------------------------

  /** A non-empty filter with no match is cleared, without reading input or touching the selection. */
  lemma StepResetsFilter(apps: seq<Entry>, s: MenuState)
    requires Resets(apps, s)
    ensures Step(apps, s) == Next(MenuState(s.selected, "", s.input))
  {
  }

  /** After a reset the view is the whole catalog. */
  lemma ResetShowsCatalog(apps: seq<Entry>, s: MenuState)
    requires Resets(apps, s)
    ensures View(apps, Step(apps, s).state) == apps
  {
    FilteredKeepsAll(apps);
  }

  /** With an empty filter the loop never resets, whatever the catalog. */
  lemma EmptyFilterNeverResets(apps: seq<Entry>, s: MenuState)
    requires s.filter == ""
    ensures !Resets(apps, s)
    ensures View(apps, s) == apps
  {
    FilteredKeepsAll(apps);
  }

  lemma StepQuit(apps: seq<Entry>, s: MenuState)
    requires !Resets(apps, s) && s.input != [] && Choice(s) == "q"
    ensures Step(apps, s) == Done(Quit, MenuState(s.selected, s.filter, s.input[1..]))
  {
  }

  lemma StepClear(apps: seq<Entry>, s: MenuState)
    requires !Resets(apps, s) && s.input != [] && Choice(s) == "c"
    ensures Step(apps, s) == Next(MenuState([], s.filter, s.input[1..]))
  {
  }

  /** An empty line reads the next line as the new filter, verbatim, and keeps the selection. */
  lemma StepNewFilter(apps: seq<Entry>, s: MenuState)
    requires !Resets(apps, s) && |s.input| >= 2 && Choice(s) == ""
    ensures Step(apps, s) == Next(MenuState(s.selected, s.input[1], s.input[2..]))
  {
  }

  /** '0' selects exactly the keys of the current view, in catalog order, and ends the loop, even when "0" is a key. */
  lemma StepSelectAll(apps: seq<Entry>, s: MenuState)
    requires IsCatalog(apps)
    requires !Resets(apps, s) && s.input != [] && Choice(s) == "0"
    ensures Step(apps, s) == Done(SelectAll, MenuState(Keys(View(apps, s)), s.filter, s.input[1..]))
    ensures forall k :: k in Step(apps, s).state.selected <==> k in Keys(View(apps, s))
    ensures NoDup(Step(apps, s).state.selected)
  {
    FilteredKeys(apps, s.filter);
  }

  /** Any other choice: add it if it is a key of the view not yet selected, then ask "add another?". */
  lemma StepPick(apps: seq<Entry>, s: MenuState)
    requires !Resets(apps, s) && s.input != [] && !IsCommand(Choice(s))
    ensures Choice(s) in Keys(View(apps, s)) && Choice(s) !in s.selected ==>
      Step(apps, s).state.selected == s.selected + [Choice(s)]
    ensures Choice(s) !in Keys(View(apps, s)) || Choice(s) in s.selected ==>
      Step(apps, s).state.selected == s.selected
    ensures Step(apps, s).state.filter == s.filter
    ensures Step(apps, s).Next? <==> |s.input| >= 2 && Lower(s.input[1]) == "t"
    ensures Step(apps, s).Done? ==> Step(apps, s).exit == if |s.input| >= 2 then Declined else InputExhausted
    ensures Step(apps, s).state.input == if |s.input| >= 2 then s.input[2..] else []
  {
  }

  /** A key with an upper-case letter is never added by a single pick: the choice is lowered first. */
  lemma StepPickIsLowercase(apps: seq<Entry>, s: MenuState, k: string)
    requires !Resets(apps, s) && s.input != [] && !IsCommand(Choice(s))
    requires !HasNoUpper(k) && k !in s.selected
    ensures k !in Step(apps, s).state.selected
  {
  }

  // ---------------------------------------------------------------------------
  // What the whole loop guarantees.
  // ---------------------------------------------------------------------------

  /** The loop invariant: `selected_apps` holds distinct keys of the catalog. */
  predicate SelectionOk(apps: seq<Entry>, selected: seq<string>) {
    NoDup(selected) && forall k :: k in selected ==> k in Keys(apps)
  }

  lemma StepKeepsSelectionOk(apps: seq<Entry>, s: MenuState)
    requires IsCatalog(apps) && SelectionOk(apps, s.selected)
    ensures SelectionOk(apps, Step(apps, s).state.selected)
  {
    FilteredKeys(apps, s.filter);
  }

  lemma {:induction false} RunMenuKeepsSelectionOk(apps: seq<Entry>, s: MenuState)
    requires IsCatalog(apps) && SelectionOk(apps, s.selected)
    ensures SelectionOk(apps, RunMenu(apps, s).state.selected)
    decreases |s.input|, if s.filter != "" then 1 else 0
  {
    StepKeepsSelectionOk(apps, s);
    if Step(apps, s).Next? {
      RunMenuKeepsSelectionOk(apps, Step(apps, s).state);
    }
  }

  /** When the loop ends by '0', the selection is exactly the keys of the view it ended with. */
  lemma {:induction false} RunMenuSelectAll(apps: seq<Entry>, s: MenuState)
    ensures RunMenu(apps, s).exit == SelectAll ==>
      RunMenu(apps, s).state.selected == Keys(Filtered(apps, RunMenu(apps, s).state.filter))
    decreases |s.input|, if s.filter != "" then 1 else 0
  {
    if Step(apps, s).Next? {
      RunMenuSelectAll(apps, Step(apps, s).state);
    }
  }

  /** Unless the loop ends by '0', every selected key is free of upper-case letters. */
  lemma {:induction false} RunMenuPicksAreLowercase(apps: seq<Entry>, s: MenuState)
    requires forall k :: k in s.selected ==> HasNoUpper(k)
    ensures RunMenu(apps, s).exit != SelectAll ==>
      forall k :: k in RunMenu(apps, s).state.selected ==> HasNoUpper(k)
    decreases |s.input|, if s.filter != "" then 1 else 0
  {
    if Step(apps, s).Next? {
      RunMenuPicksAreLowercase(apps, Step(apps, s).state);
    }
  }

  /** `t` is what is left of `s` after reading some lines from its front. */
  ghost predicate IsSuffix(t: seq<string>, s: seq<string>) {
    |t| <= |s| && t == s[|s| - |t|..]
  }

  lemma StepLeavesSuffix(apps: seq<Entry>, s: MenuState)
    ensures IsSuffix(Step(apps, s).state.input, s.input)
  {
  }

  lemma SuffixTransitive(a: seq<string>, b: seq<string>, c: seq<string>)
    requires IsSuffix(a, b) && IsSuffix(b, c)
    ensures IsSuffix(a, c)
  {
    assert c[|c| - |b|..][|b| - |a|..] == c[|c| - |a|..];
  }

  /** The loop reads lines only from the front of its input. */
  lemma {:induction false} RunMenuLeavesSuffix(apps: seq<Entry>, s: MenuState)
    ensures IsSuffix(RunMenu(apps, s).state.input, s.input)
    decreases |s.input|, if s.filter != "" then 1 else 0
  {
    StepLeavesSuffix(apps, s);
    var r := Step(apps, s);
    if r.Next? {
      RunMenuLeavesSuffix(apps, r.state);
      SuffixTransitive(RunMenu(apps, r.state).state.input, r.state.input, s.input);
    }
  }

  // ---------------------------------------------------------------------------
  // Concrete runs.
  // ---------------------------------------------------------------------------

  function SampleApp(name: string): App {
    App(name, Absent, "https://example.org/setup.exe", "setup.exe", "/S")
  }

  /** A choice longer than one character, or one character other than 'q', 'c' and '0', is looked up as a key. */
  lemma NotACommand(choice: string)
    requires |choice| >= 2 || (|choice| == 1 && choice[0] != 'q' && choice[0] != 'c' && choice[0] != '0')
    ensures !IsCommand(choice)
  {
    if |choice| == 1 {
      assert choice != "q" by { assert "q"[0] == 'q'; }
      assert choice != "c" by { assert "c"[0] == 'c'; }
      assert choice != "0" by { assert "0"[0] == '0'; }
    }
  }

  /** Pick key "1", answer 'n' to "add another?": the loop ends with exactly that key. */
  lemma PickOneThenDecline()
    ensures RunMenu([Entry("1", SampleApp("Foo"))], Initial(["1", "n"])) ==
      Done(Declined, MenuState(["1"], "", []))
  {
    var apps := [Entry("1", SampleApp("Foo"))];
    var s0 := Initial(["1", "n"]);
    EmptyFilterNeverResets(apps, s0);
    assert Choice(s0) == "1" by {
      assert HasNoUpper("1");
    }
    NotACommand("1");
    assert Lower("n") != "t" by {
      assert HasNoUpper("n");
      assert "n"[0] != "t"[0];
    }
    assert Keys(View(apps, s0)) == ["1"];
    StepPick(apps, s0);
    assert Step(apps, s0).state.selected == ["1"];
    assert Step(apps, s0) == Done(Declined, MenuState(["1"], "", []));
  }

  lemma ZzzDoesNotMatchFoo()
    ensures !Matches("zzz", "Foo")
  {
    var name := Lower("Foo");
    assert |name| == 3 && name[0] == 'f';
    assert Lower("zzz") == "zzz" by { assert HasNoUpper("zzz"); }
    forall i ensures !OccursAt("zzz", name, i) {
      if 0 <= i && i + 3 <= |name| {
        assert name[i..i + 3][0] == 'f' != "zzz"[0];
      }
    }
  }

  // The three iterations of the run below, one at a time.

  lemma ZzzStepReadsFilter()
    ensures Step([Entry("1", SampleApp("Foo"))], Initial(["", "zzz", "0"])) == Next(MenuState([], "zzz", ["0"]))
  {
    var apps := [Entry("1", SampleApp("Foo"))];
    var s0 := Initial(["", "zzz", "0"]);
    EmptyFilterNeverResets(apps, s0);
    assert Choice(s0) == "";
    StepNewFilter(apps, s0);
  }

  lemma ZzzStepResets()
    ensures Step([Entry("1", SampleApp("Foo"))], MenuState([], "zzz", ["0"])) == Next(MenuState([], "", ["0"]))
  {
    var apps := [Entry("1", SampleApp("Foo"))];
    var s1 := MenuState([], "zzz", ["0"]);
    ZzzDoesNotMatchFoo();
    assert View(apps, s1) == [];
    StepResetsFilter(apps, s1);
  }

  lemma ZzzStepSelectsAll()
    ensures Step([Entry("1", SampleApp("Foo"))], MenuState([], "", ["0"])) == Done(SelectAll, MenuState(["1"], "", []))
  {
    var apps := [Entry("1", SampleApp("Foo"))];
    var s2 := MenuState([], "", ["0"]);
    EmptyFilterNeverResets(apps, s2);
    assert Choice(s2) == "0" by { assert HasNoUpper("0"); }
    StepSelectAll(apps, s2);
    assert Keys(apps) == ["1"];
  }

  /** A filter that matches nothing is dropped, and the next choice sees the whole catalog. */
  lemma FilterWithoutMatchIsDropped()
    ensures RunMenu([Entry("1", SampleApp("Foo"))], Initial(["", "zzz", "0"])) ==
      Done(SelectAll, MenuState(["1"], "", []))
  {
    var apps := [Entry("1", SampleApp("Foo"))];
    ZzzStepReadsFilter();
    ZzzStepResets();
    ZzzStepSelectsAll();
    assert RunMenu(apps, MenuState([], "", ["0"])) == Done(SelectAll, MenuState(["1"], "", []));
    assert RunMenu(apps, MenuState([], "zzz", ["0"])) == Done(SelectAll, MenuState(["1"], "", []));
  }

  /** A key with an upper-case letter cannot be picked by typing it. */
  lemma UppercaseKeyIsNotPicked()
    ensures RunMenu([Entry("Vlc", SampleApp("VLC"))], Initial(["Vlc", "n"])) ==
      Done(Declined, MenuState([], "", []))
  {
    var apps := [Entry("Vlc", SampleApp("VLC"))];
    var s0 := Initial(["Vlc", "n"]);
    EmptyFilterNeverResets(apps, s0);
    assert |Choice(s0)| == 3;
    NotACommand(Choice(s0));
    assert Lower("n") != "t" by {
      assert HasNoUpper("n");
      assert "n"[0] != "t"[0];
    }
    assert Choice(s0) !in Keys(View(apps, s0)) by {
      assert Keys(apps) == ["Vlc"];
      assert !HasNoUpper("Vlc") by { assert IsUpper("Vlc"[0]); }
      assert HasNoUpper(Choice(s0));
    }
    StepPick(apps, s0);
    assert Step(apps, s0) == Done(Declined, MenuState([], "", []));
  }

  /** A catalog key "0" does not stop '0' from selecting the whole view. */
  lemma ZeroKeyStillSelectsAll()
    ensures RunMenu([Entry("0", SampleApp("Zero")), Entry("1", SampleApp("One"))], Initial(["0"])) ==
      Done(SelectAll, MenuState(["0", "1"], "", []))
  {
    var apps := [Entry("0", SampleApp("Zero")), Entry("1", SampleApp("One"))];
    var s0 := Initial(["0"]);
    EmptyFilterNeverResets(apps, s0);
    assert Choice(s0) == "0" by { assert HasNoUpper("0"); }
    assert IsCatalog(apps) by {
      assert Keys(apps) == ["0", "1"];
      assert "0"[0] != "1"[0];
    }
    StepSelectAll(apps, s0);
    assert Keys(apps) == ["0", "1"];
  }

  /** The selection loop, as `main` runs it. */
  method SelectApps(apps: seq<Entry>, inputs: seq<string>) returns (r: StepResult)
    requires IsCatalog(apps)
    ensures r == RunMenu(apps, Initial(inputs))
    ensures r.Done? && SelectionOk(apps, r.state.selected)
  {
    var selected: seq<string> := [];
    var filter := "";
    var input := inputs;
    while true
      invariant SelectionOk(apps, selected)
      invariant RunMenu(apps, MenuState(selected, filter, input)) == RunMenu(apps, Initial(inputs))
      decreases |input|, if filter != "" then 1 else 0
    {
      ghost var s := MenuState(selected, filter, input);
      StepKeepsSelectionOk(apps, s);
      var view := ShowMenu(apps, filter);
      if |view| == 0 && filter != "" {
        filter := "";
        continue;
      }
      if input == [] {
        r := Done(InputExhausted, MenuState(selected, filter, input));
        return;
      }
      var choice := Lower(input[0]);
      input := input[1..];
      if choice == "q" {
        r := Done(Quit, MenuState(selected, filter, input));
        return;
      } else if choice == "c" {
        selected := [];
        continue;
      } else if choice == "" {
        if input == [] {
          r := Done(InputExhausted, MenuState(selected, filter, input));
          return;
        }
        filter := input[0];
        input := input[1..];
        continue;
      }
      if choice == "0" {
        selected := Keys(view);
        r := Done(SelectAll, MenuState(selected, filter, input));
        return;
      }
      if choice in Keys(view) {
        if choice !in selected {
          selected := selected + [choice];
        }
      }
      if input == [] {
        r := Done(InputExhausted, MenuState(selected, filter, input));
        return;
      }
      var cont := Lower(input[0]);
      input := input[1..];
      if cont != "t" {
        r := Done(Declined, MenuState(selected, filter, input));
        return;
      }
    }
  }
}
