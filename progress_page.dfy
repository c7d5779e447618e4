/** The state machine of the demo page in new-code/: a progress value moved
    in steps of ten between 0 and 100, a light/dark theme, and the keyboard
    shortcuts that drive them. Each handler updates the page state in place
    and returns the text of the toast it shows; drawing the page, the toast
    timers and local storage are outside the model (the stored theme is a
    parameter). */
module ProgressPage {
  import opened Wrappers
  import opened Js

  // ---------------------------------------------------------------------------
  // The transitions, as functions of the old state
  // ---------------------------------------------------------------------------

  /** A progress value the page can show: a multiple of ten in 0..100. */
  predicate ValidProgress(p: int)
  {
    0 <= p <= 100 && p % 10 == 0
  }

  /** incrementProgress: up ten while below 100. */
  function StepUp(p: int): (q: int)
    ensures ValidProgress(p) ==> ValidProgress(q)
    ensures q == p || q == p + 10
  {
    if p < 100 then p + 10 else p
  }

  /** decrementProgress: down ten while above 0. */
  function StepDown(p: int): (q: int)
    ensures ValidProgress(p) ==> ValidProgress(q)
    ensures q == p || q == p - 10
  {
    if p > 0 then p - 10 else p
  }

  /** toggleTheme: 'dark' from 'light', and 'light' from anything else. */
  function Toggled(theme: string): (t: string)
    ensures t == "light" || t == "dark"
  {
    if theme == "light" then "dark" else "light"
  }

  /** checkTheme: the stored theme, or 'light' when nothing (or an empty
      string, which is falsy) is stored. */
  function RestoredTheme(saved: Option<string>): (t: string)
    ensures t != ""
  {
    if saved.Some? && saved.value != "" then saved.value else "light"
  }

  /** The shortcut a key press triggers: only with Ctrl or Meta held, and
      only for 'k', 'g', 'p' and 'r' (case-sensitive). */
  datatype Shortcut = Focus | Generate | Advance | Reset | Ignored

  function ShortcutOf(ctrlKey: bool, metaKey: bool, key: string): (s: Shortcut)
    ensures !(ctrlKey || metaKey) ==> s == Ignored
  {
    if !(ctrlKey || metaKey) then Ignored
    else if key == "k" then Focus
    else if key == "g" then Generate
    else if key == "p" then Advance
    else if key == "r" then Reset
    else Ignored
  }

  /** The toast of generateText. `text` is the text input's value, None when
      the input or the output element is missing, in which case nothing is
      shown. The generated text itself is drawn at random and not modelled. */
  function GenerateToast(text: Option<string>): (m: Option<string>)
    ensures m.Some? <==> text.Some?
    ensures text.Some? ==> (m == Some("Text generated successfully!") <==> Trim(text.value) != "")
    ensures text.Some? ==> (m == Some("Please enter some text first") <==> Trim(text.value) == "")
  {
    match text
    case None => None
    case Some(t) =>
      if Trim(t) != "" then Some("Text generated successfully!") else Some("Please enter some text first")
  }

  /** The progress after a shortcut. */
  function ShortcutProgress(s: Shortcut, p: int): int
  {
    match s
    case Advance => StepUp(p)
    case Reset => 0
    case _ => p
  }

  // ---------------------------------------------------------------------------
  // The page state
  // ---------------------------------------------------------------------------

  /** The module-level `state` object. */
  class PageState {
    var progress: int
    var theme: string

    ghost predicate Valid()
      reads this
    {
      ValidProgress(progress)
    }

    constructor ()
      ensures progress == 0 && theme == "light" && Valid()
    {
      progress := 0;
      theme := "light";
    }

    method IncrementProgress() returns (message: string)
      modifies this
      ensures progress == StepUp(old(progress)) && theme == old(theme)
      ensures Valid() <== old(Valid())
      ensures message == if old(progress) < 100 then "Progress increased to " + NumberToString(progress) + "%"
                         else "Progress already at maximum!"
    {
      if progress < 100 {
        progress := progress + 10;
        message := "Progress increased to " + NumberToString(progress) + "%";
      } else {
        message := "Progress already at maximum!";
      }
    }

    method DecrementProgress() returns (message: string)
      modifies this
      ensures progress == StepDown(old(progress)) && theme == old(theme)
      ensures Valid() <== old(Valid())
      ensures message == if old(progress) > 0 then "Progress decreased to " + NumberToString(progress) + "%"
                         else "Progress already at minimum!"
    {
      if progress > 0 {
        progress := progress - 10;
        message := "Progress decreased to " + NumberToString(progress) + "%";
      } else {
        message := "Progress already at minimum!";
      }
    }

    method ResetProgress() returns (message: string)
      modifies this
      ensures progress == 0 && theme == old(theme) && Valid()
      ensures message == "Progress reset to 0%"
    {
      progress := 0;
      message := "Progress reset to 0%";
    }

    method ToggleTheme() returns (message: string)
      modifies this
      ensures theme == Toggled(old(theme)) && progress == old(progress)
      ensures message == "Switched to " + theme + " theme"
    {
      theme := Toggled(theme);
      message := "Switched to " + theme + " theme";
    }

    /** checkTheme, with `localStorage.getItem('theme')` passed in. */
    method CheckTheme(saved: Option<string>)
      modifies this
      ensures theme == RestoredTheme(saved) && progress == old(progress)
    {
      theme := RestoredTheme(saved);
    }

    /** handleKeyboardShortcuts: the four independent checks of the source;
        at most one matches, since the key is one string. Returns whether
        the default action was prevented and the toast text, if any. The
        focus shortcut acts on the page only; the generate shortcut shows
        generateText's toast for the text input's value `textInput`. */
    method HandleKeyboardShortcuts(ctrlKey: bool, metaKey: bool, key: string, textInput: Option<string>)
      returns (prevented: bool, message: Option<string>)
      modifies this
      ensures progress == ShortcutProgress(ShortcutOf(ctrlKey, metaKey, key), old(progress))
      ensures theme == old(theme)
      ensures prevented <==> ShortcutOf(ctrlKey, metaKey, key) != Ignored
      ensures ShortcutOf(ctrlKey, metaKey, key) in {Focus, Ignored} ==> message == None
      ensures ShortcutOf(ctrlKey, metaKey, key) == Generate ==> message == GenerateToast(textInput)
      ensures ShortcutOf(ctrlKey, metaKey, key) == Advance ==>
                message == Some(if old(progress) < 100 then "Progress increased to " + NumberToString(progress) + "%"
                                else "Progress already at maximum!")
      ensures ShortcutOf(ctrlKey, metaKey, key) == Reset ==> message == Some("Progress reset to 0%")
      ensures Valid() <== old(Valid())
    {
      prevented := false;
      message := None;
      var modifier := ctrlKey || metaKey;
      if modifier && key == "k" {
        prevented := true;
      }
      if modifier && key == "g" {
        prevented := true;
        message := GenerateToast(textInput);
      }
      if modifier && key == "p" {
        prevented := true;
        var m := IncrementProgress();
        message := Some(m);
      }
      if modifier && key == "r" {
        prevented := true;
        var m := ResetProgress();
        message := Some(m);
      }
    }
  }

  // ---------------------------------------------------------------------------
  // Properties of the transitions
  // ---------------------------------------------------------------------------

  /** Stepping up from below the top and back down returns to the start,
      and so does stepping down from above zero and back up. */
  lemma StepsUndo(p: int)
    requires ValidProgress(p)
    ensures p < 100 ==> StepDown(StepUp(p)) == p
    ensures p > 0 ==> StepUp(StepDown(p)) == p
  {
  }

  /** The ends are fixed points: 100 for stepping up, 0 for stepping down. */
  lemma StepsSaturate(p: int)
    ensures StepUp(p) == p <==> p >= 100
    ensures StepDown(p) == p <==> p <= 0
  {
  }

  /** The progress after a run of up (true) and down (false) steps. */
  function Run(p: int, ups: seq<bool>): int
    decreases ups
  {
    if ups == [] then p
    else Run(if ups[0] then StepUp(p) else StepDown(p), ups[1..])
  }

  /** Any run of steps keeps a valid progress valid. */
  lemma {:induction false} RunStaysValid(p: int, ups: seq<bool>)
    requires ValidProgress(p)
    ensures ValidProgress(Run(p, ups))
    decreases ups
  {
    if ups != [] {
      RunStaysValid(if ups[0] then StepUp(p) else StepDown(p), ups[1..]);
    }
  }

  /** Enough steps up from any valid progress reach 100 and stay there. */
  lemma {:induction false} TenUpsReachTop(p: int, n: nat)
    requires ValidProgress(p) && p + 10 * n >= 100
    ensures Run(p, seq(n, _ => true)) == 100
    decreases n
  {
    if n == 0 {
    } else {
      var rest := seq(n - 1, _ => true);
      assert seq(n, _ => true) == [true] + rest;
      assert (seq(n, _ => true))[1..] == rest;
      TenUpsReachTop(StepUp(p), n - 1);
    }
  }

  /** The toggle yields 'dark' exactly from 'light'. */
  lemma ToggledDarkIff(theme: string)
    ensures Toggled(theme) == "dark" <==> theme == "light"
  {
  }

  /** Two toggles restore 'light' or 'dark'; any other theme becomes 'dark'. */
  lemma ToggleTwice(theme: string)
    ensures theme == "light" || theme == "dark" ==> Toggled(Toggled(theme)) == theme
    ensures theme != "light" && theme != "dark" ==> Toggled(Toggled(theme)) == "dark"
  {
  }

  /** A stored theme is restored as it was; nothing stored gives 'light'. */
  lemma RestoredThemeIff(saved: Option<string>)
    ensures RestoredTheme(saved) == "light" <==> saved.None? || saved.value in {"", "light"}
    ensures saved.Some? && saved.value != "" ==> RestoredTheme(saved) == saved.value
  {
  }

  /** Shortcuts: Ctrl/Meta+P steps up, Ctrl/Meta+R resets, K and G and every
      other key leave progress alone. */
  lemma ShortcutEffects(ctrlKey: bool, metaKey: bool, key: string, p: int)
    ensures (ctrlKey || metaKey) && key == "p" ==> ShortcutProgress(ShortcutOf(ctrlKey, metaKey, key), p) == StepUp(p)
    ensures (ctrlKey || metaKey) && key == "r" ==> ShortcutProgress(ShortcutOf(ctrlKey, metaKey, key), p) == 0
    ensures key != "p" && key != "r" ==> ShortcutProgress(ShortcutOf(ctrlKey, metaKey, key), p) == p
    ensures !(ctrlKey || metaKey) ==> ShortcutProgress(ShortcutOf(ctrlKey, metaKey, key), p) == p
  {
  }
}
