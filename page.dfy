/** The page's own state and the handlers that change it: the theme toggle,
    the name form, the "yes" button, the "again" button and the layer of
    floating hearts with their removal timers. The host's clock is the
    field `clock`, in milliseconds, advanced by `Elapse`. */
module Page {
  import opened Names
  import opened Escape

  /** Which card the page shows. The intro card holds the form; the play card
      holds the question and, once answered, the congratulation panel. */
  datatype View = Intro | Prompt | Celebrating

  /** A heart in the hearts container, with the clock time at which its
      removal timer fires. */
  datatype Heart = Heart(removeAt: nat)

  /** The toggle's icons: a crescent moon in dark mode, a sun otherwise. */
  const DarkIcon: string := "\U{1F319}"
  const LightIcon: string := "\U{1F31E}"

  function ThemeIcon(dark: bool): string {
    if dark then DarkIcon else LightIcon
  }

  /** The batch sizes of the two call sites: the first "yes" and each "again". */
  const YesHearts: nat := 12
  const AgainHearts: nat := 10

  /** The removal delay of heart `i` of a batch, in milliseconds: 1600 for the
      first, 40 more for each one after it. */
  function RemovalDelay(i: nat): nat {
    1600 + 40 * i
  }

  /** The longest time a heart stays on the page: the delay of the last heart
      of the larger batch. */
  const MaxHeartLife: nat := RemovalDelay(YesHearts - 1)

  /** The hearts one `spawnHearts(count)` appends at time `now`, in order:
      `count` of them, heart `i` removed `RemovalDelay(i)` after `now`, so
      the removal times strictly increase along the batch. */
  function Batch(now: nat, count: nat): (b: seq<Heart>)
    ensures |b| == count
    ensures forall i :: 0 <= i < count ==> b[i].removeAt == now + RemovalDelay(i)
    ensures forall i, j :: 0 <= i < j < count ==> b[i].removeAt < b[j].removeAt
  {
    if count == 0 then [] else Batch(now, count - 1) + [Heart(now + RemovalDelay(count - 1))]
  }

  /** `r` is `hs` with some of its elements dropped, the rest kept in order. */
  predicate Subsequence(r: seq<Heart>, hs: seq<Heart>) {
    r == [] || (hs != [] && ((r[0] == hs[0] && Subsequence(r[1..], hs[1..])) || Subsequence(r, hs[1..])))
  }

  /** The hearts whose removal timer has not fired by time `now`, in their
      original order: every heart still due stays, as many times as it
      occurs, and every heart whose time has come is gone. */
  function Pending(hs: seq<Heart>, now: nat): (r: seq<Heart>)
    ensures |r| <= |hs|
    ensures forall h :: h in r <==> h in hs && now < h.removeAt
    ensures forall h :: multiset(r)[h] == if now < h.removeAt then multiset(hs)[h] else 0
  {
    if hs == [] then []
    else
      assert hs == [hs[0]] + hs[1..];
      (if now < hs[0].removeAt then [hs[0]] else []) + Pending(hs[1..], now)
  }

  /** Removal keeps the remaining hearts in their original order. */
  lemma {:induction false} PendingSubsequence(hs: seq<Heart>, now: nat)
    ensures Subsequence(Pending(hs, now), hs)
  {
    if hs != [] {
      PendingSubsequence(hs[1..], now);
      var rest := Pending(hs[1..], now);
      if now < hs[0].removeAt {
        var r := [hs[0]] + rest;
        assert r[0] == hs[0] && r[1..] == rest;
      } else {
        assert Pending(hs, now) == rest;
      }
    }
  }

  /** The latest removal time among `hs` (0 for none). */
  function LastRemoval(hs: seq<Heart>): (t: nat)
    ensures forall h :: h in hs ==> h.removeAt <= t
    ensures hs != [] ==> exists h :: h in hs && h.removeAt == t
  {
    if hs == [] then 0
    else
      var t := LastRemoval(hs[1..]);
      if hs[0].removeAt >= t then hs[0].removeAt else t
  }

  lemma {:induction false} LastRemovalAtMost(hs: seq<Heart>, t: nat)
    requires forall h :: h in hs ==> h.removeAt <= t
    ensures LastRemoval(hs) <= t
  {
    if hs != [] {
      assert hs[0] in hs;
      assert forall h :: h in hs[1..] ==> h in hs;
      LastRemovalAtMost(hs[1..], t);
    }
  }

  /** Every heart is eventually removed: none is left exactly from the
      latest removal time on. */
  lemma PendingEmptyIff(hs: seq<Heart>, now: nat)
    ensures Pending(hs, now) == [] <==> LastRemoval(hs) <= now
  {
    var r := Pending(hs, now);
    if r != [] {
      assert r[0] in r;
    }
    if hs != [] && LastRemoval(hs) > now {
      var h :| h in hs && h.removeAt == LastRemoval(hs);
      assert h in r;
    }
  }

  /** A batch of `count` hearts spawned at `now` is gone exactly at the
      removal time of its last heart. */
  lemma BatchLastRemoval(now: nat, count: nat)
    requires count > 0
    ensures LastRemoval(Batch(now, count)) == now + RemovalDelay(count - 1)
  {
    var b := Batch(now, count);
    assert b[count - 1] in b;
    var h :| h in b && h.removeAt == LastRemoval(b);
    var i :| 0 <= i < count && b[i] == h;
  }

  /** A well-formed name holds only letters and white space, so escaping it
      for the question markup leaves it as it is. */
  lemma WellFormedNameNeedsNoEscape(n: string)
    requires WellFormedName(n)
    ensures EscapeHtml(n) == n
  {
    assert forall i :: 0 <= i < |n| ==> !IsSpecial(n[i]) by {
      forall i | 0 <= i < |n| ensures !IsSpecial(n[i]) {
        assert InNameClass(n[i]);
        if IsSpace(n[i]) {
          SpaceCodes(n[i]);
        }
      }
    }
    EscapeIdentityIff(n);
  }

  class Page {
    var darkMode: bool
    var themeIcon: string
    var view: View
    /** Text of the error line under the form. */
    var errorText: string
    /** Whether the handler last returned focus to the name input. */
    var inputFocused: bool
    /** Markup of the name inside the question. */
    var greeting: string
    var yesDisabled: bool
    var noDisabled: bool
    /** Congratulation panels appended to the play card. */
    var panels: nat
    /** Children of the hearts container, oldest first. */
    var hearts: seq<Heart>
    var clock: nat

    /** The display state machine and what each state shows: the buttons are
        enabled exactly while the question is up, exactly one panel exists
        once answered, the greeting is a well-formed name, and every heart on
        the page is removed within `MaxHeartLife` of now. */
    ghost predicate Valid()
      reads this
    {
      (view == Intro ==> greeting == [] && panels == 0 && hearts == []) &&
      (view != Intro ==> errorText == [] && WellFormedName(greeting)) &&
      (view == Prompt ==> panels == 0 && hearts == []) &&
      (view == Celebrating ==> panels == 1) &&
      yesDisabled == (view == Celebrating) &&
      noDisabled == (view == Celebrating) &&
      (forall h :: h in hearts ==> clock < h.removeAt <= clock + MaxHeartLife)
    }

    /** The page as loaded: the intro card is shown, and the theme and its
        icon are whatever the markup starts with. */
    constructor (dark: bool, icon: string)
      ensures Valid()
      ensures darkMode == dark && themeIcon == icon
      ensures view == Intro && errorText == [] && !inputFocused
      ensures hearts == [] && clock == 0
    {
      darkMode, themeIcon := dark, icon;
      view, errorText, inputFocused, greeting := Intro, [], false, [];
      yesDisabled, noDisabled, panels := false, false, 0;
      hearts, clock := [], 0;
    }

    /** The theme toggle's click handler: flips dark mode and shows the icon
        that matches the new mode. */
    method ToggleTheme()
      requires Valid()
      modifies this`darkMode, this`themeIcon
      ensures Valid()
      ensures darkMode == !old(darkMode)
      ensures themeIcon == ThemeIcon(darkMode)
    {
      darkMode := !darkMode;
      themeIcon := if darkMode then DarkIcon else LightIcon;
    }

    /** The form's submit handler. A refused name sets the fixed error text,
        returns focus to the input and leaves the intro card up; an accepted
        one clears the error and shows the question with the trimmed name and
        two enabled buttons. Once the intro card is hidden the form cannot be
        submitted, and nothing changes. */
    method SubmitName(raw: string)
      requires Valid()
      modifies this`view, this`errorText, this`inputFocused, this`greeting,
               this`yesDisabled, this`noDisabled
      ensures Valid()
      ensures old(view) != Intro ==>
        view == old(view) && errorText == old(errorText) &&
        inputFocused == old(inputFocused) && greeting == old(greeting)
      ensures old(view) == Intro && ValidateName(raw).Rejected? ==>
        view == Intro && errorText == NameErrorMessage && inputFocused && greeting == []
      ensures old(view) == Intro && ValidateName(raw).Accepted? ==>
        view == Prompt && errorText == [] && inputFocused == old(inputFocused) &&
        greeting == ValidateName(raw).name && !yesDisabled && !noDisabled
    {
      if view != Intro {
        return;
      }
      var v := ValidateName(raw);
      match v
      case Rejected(message) =>
        errorText := message;
        inputFocused := true;
      case Accepted(name) =>
        errorText := [];
        AcceptedNameWellFormed(raw);
        ShowQuestionFor(name);
    }

    /** `showQuestionFor`: swaps the intro card for the question, with the
        escaped name and fresh, enabled buttons. The escaped name is safe
        markup, and for a well-formed name it is the name itself. */
    method ShowQuestionFor(name: string)
      requires WellFormedName(name)
      requires view == Intro && panels == 0 && hearts == [] && errorText == []
      modifies this`view, this`greeting, this`yesDisabled, this`noDisabled
      ensures view == Prompt && greeting == name && SafeHtml(greeting)
      ensures !yesDisabled && !noDisabled
    {
      WellFormedNameNeedsNoEscape(name);
      EscapeIsSafe(name);
      view := Prompt;
      greeting := EscapeHtml(name);
      yesDisabled, noDisabled := false, false;
    }

    /** `spawnHearts(count)`: appends `count` hearts, scheduling heart `i`'s
        removal `RemovalDelay(i)` from now. */
    method SpawnHearts(count: nat)
      modifies this`hearts
      ensures hearts == old(hearts) + Batch(clock, count)
    {
      for i := 0 to count
        invariant hearts == old(hearts) + Batch(clock, i)
      {
        hearts := hearts + [Heart(clock + RemovalDelay(i))];
      }
    }

    /** The "yes" button's click handler, `respondYes`: appends the panel,
        spawns the first batch of hearts and disables both buttons, which
        then ignore further clicks. Before the question is shown there is no
        button to click. */
    method ClickYes()
      requires Valid()
      modifies this`view, this`panels, this`hearts, this`yesDisabled, this`noDisabled
      ensures Valid()
      ensures old(view) == Prompt ==>
        view == Celebrating && panels == 1 && yesDisabled && noDisabled &&
        hearts == Batch(clock, YesHearts)
      ensures old(view) != Prompt ==>
        view == old(view) && panels == old(panels) && hearts == old(hearts) &&
        yesDisabled == old(yesDisabled) && noDisabled == old(noDisabled)
    {
      if view != Prompt {
        return;
      }
      panels := panels + 1;
      SpawnHearts(YesHearts);
      yesDisabled, noDisabled := true, true;
      view := Celebrating;
    }

    /** The "again" button's click handler: spawns another batch of hearts
        and re-enables nothing. The button exists only on the panel. */
    method ClickAgain()
      requires Valid()
      modifies this`hearts
      ensures Valid()
      ensures hearts == if view == Celebrating then old(hearts) + Batch(clock, AgainHearts) else old(hearts)
    {
      if view == Celebrating {
        SpawnHearts(AgainHearts);
      }
    }

    /** `ms` milliseconds pass: every heart whose removal timer is due by
        then is removed. Once `MaxHeartLife` has passed, none is left. */
    method Elapse(ms: nat)
      requires Valid()
      modifies this`clock, this`hearts
      ensures Valid()
      ensures clock == old(clock) + ms
      ensures hearts == Pending(old(hearts), clock)
      ensures ms >= MaxHeartLife ==> hearts == []
    {
      var before := hearts;
      clock := clock + ms;
      if ms >= MaxHeartLife {
        LastRemovalAtMost(before, clock);
        PendingEmptyIff(before, clock);
      }
      hearts := Pending(before, clock);
    }
  }

  /** Two clicks on the theme toggle restore the original mode, and the icon
      then matches it. */
  method ToggleTwice(p: Page)
    requires p.Valid()
    modifies p`darkMode, p`themeIcon
    ensures p.Valid()
    ensures p.darkMode == old(p.darkMode) && p.themeIcon == ThemeIcon(p.darkMode)
  {
    p.ToggleTheme();
    p.ToggleTheme();
  }

  /** From load to the question: a refused name leaves the intro card up
      with the error text, an accepted one shows the question. */
  method Enter(refused: string, accepted: string) returns (p: Page)
    requires ValidateName(refused).Rejected? && ValidateName(accepted).Accepted?
    ensures p.Valid() && p.view == Prompt && p.greeting == Trim(accepted)
  {
    p := new Page(false, LightIcon);
    p.SubmitName(refused);
    assert p.view == Intro && p.errorText == NameErrorMessage;
    p.SubmitName(accepted);
  }

  /** From the question on: "yes" fires once however often it is clicked,
      and each "again" adds ten hearts without enabling the buttons. */
  method YesThenAgain(p: Page)
    requires p.Valid() && p.view == Prompt
    modifies p`view, p`panels, p`hearts, p`yesDisabled, p`noDisabled
    ensures p.Valid() && p.view == Celebrating && p.panels == 1
    ensures p.yesDisabled && p.noDisabled
    ensures p.hearts == Batch(p.clock, YesHearts) + Batch(p.clock, AgainHearts) + Batch(p.clock, AgainHearts)
    ensures |p.hearts| == YesHearts + 2 * AgainHearts
  {
    p.ClickYes();
    p.ClickYes();
    p.ClickAgain();
    p.ClickAgain();
  }

  /** The whole celebration: after "yes", a second "yes" and two "again"
      clicks, `MaxHeartLife` later every heart is gone while the panel stays
      and both buttons stay disabled. */
  method Celebrate(p: Page)
    requires p.Valid() && p.view == Prompt
    modifies p`view, p`panels, p`hearts, p`yesDisabled, p`noDisabled, p`clock
    ensures p.Valid() && p.view == Celebrating && p.panels == 1
    ensures p.yesDisabled && p.noDisabled
    ensures p.clock == old(p.clock) + MaxHeartLife && p.hearts == []
  {
    YesThenAgain(p);
    p.Elapse(MaxHeartLife);
  }
}
