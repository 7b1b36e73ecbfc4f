/**
 * The language tabs of the scripting interpreter window
 * (src/main/java/org/scijava/ui/swing/script/InterpreterWindow.java): which
 * languages get a tab and in what order, which tab is selected, what is
 * persisted of the selection, and where printed messages go. A tab is
 * identified with its language; the widgets and the interpreters are not
 * modelled.
 */
module InterpreterWindow {
  import opened Wrappers
  import opened JavaString

  /** A script language: its name and whether it is compiled rather than interpreted. */
  datatype Language = Language(name: string, compiled: bool)

  /**
   * The iterator loop of `languages()`: compiled languages are removed, the
   * others keep their order.
   */
  function Interpretable(langs: seq<Language>): (r: seq<Language>)
    ensures forall l :: l in r ==> !l.compiled
    ensures forall l :: multiset(r)[l] == if l.compiled then 0 else multiset(langs)[l]
  {
    if |langs| == 0 then []
    else
      var rest := Interpretable(langs[1..]);
      assert langs == [langs[0]] + langs[1..];
      if langs[0].compiled then rest else [langs[0]] + rest
  }

  /** The comparator of `languages()`: `l1.getLanguageName().compareTo(l2.getLanguageName())`. */
  predicate NameLe(a: Language, b: Language)
  {
    CompareTo(a.name, b.name) <= 0
  }

  predicate SortedByName(s: seq<Language>)
  {
    forall i, j :: 0 <= i < j < |s| ==> NameLe(s[i], s[j])
  }

  /** Anything no greater than the head of a sorted sequence is no greater than all of it. */
  lemma BelowSortedHead(x: Language, s: seq<Language>)
    requires SortedByName(s) && 0 < |s| && NameLe(x, s[0])
    ensures forall j :: 0 <= j < |s| ==> NameLe(x, s[j])
  {
    forall j | 0 <= j < |s|
      ensures NameLe(x, s[j])
    {
      if j > 0 {
        CompareToTransitive(x.name, s[0].name, s[j].name);
      }
    }
  }

  /** Insert `x` into a sorted sequence before the first element it does not exceed. */
  function InsertByName(x: Language, s: seq<Language>): (r: seq<Language>)
    requires SortedByName(s)
    ensures SortedByName(r)
    ensures multiset(r) == multiset(s) + multiset{x}
  {
    if |s| == 0 then [x]
    else if NameLe(x, s[0]) then
      BelowSortedHead(x, s);
      [x] + s
    else
      var rest := InsertByName(x, s[1..]);
      HeadBelowInsertion(x, s, rest);
      [s[0]] + rest
  }

  /** The head of a sorted sequence stays in front when a larger element goes into its tail. */
  lemma HeadBelowInsertion(x: Language, s: seq<Language>, rest: seq<Language>)
    requires SortedByName(s) && 0 < |s| && !NameLe(x, s[0])
    requires SortedByName(rest) && multiset(rest) == multiset(s[1..]) + multiset{x}
    ensures SortedByName([s[0]] + rest)
    ensures multiset([s[0]] + rest) == multiset(s) + multiset{x}
  {
    CompareToAntisymmetric(x.name, s[0].name);
    forall y | y in rest
      ensures NameLe(s[0], y)
    {
      assert y in multiset(rest);
      if y != x {
        assert y in multiset(s[1..]);
        var k :| 0 <= k < |s[1..]| && s[1..][k] == y;
        assert s[k + 1] == y;
      }
    }
    var r := [s[0]] + rest;
    forall i, j | 0 <= i < j < |r|
      ensures NameLe(r[i], r[j])
    {
      assert r[j] == rest[j - 1];
      assert r[j] in rest;
      if i > 0 {
        assert r[i] == rest[i - 1];
      }
    }
    assert s == [s[0]] + s[1..];
  }

  /** The `Collections.sort` of `languages()`, by name. */
  function SortByName(s: seq<Language>): (r: seq<Language>)
    ensures SortedByName(r)
    ensures multiset(r) == multiset(s)
  {
    if |s| == 0 then []
    else
      assert s == [s[0]] + s[1..];
      InsertByName(s[0], SortByName(s[1..]))
  }

  /**
   * `languages()`: the available languages without the compiled ones, sorted
   * by name. Each interpreted language keeps its multiplicity.
   */
  function Languages(available: seq<Language>): (r: seq<Language>)
    ensures forall l :: l in r ==> !l.compiled
    ensures forall l :: l in r <==> l in available && !l.compiled
    ensures forall l :: multiset(r)[l] == if l.compiled then 0 else multiset(available)[l]
    ensures SortedByName(r)
  {
    var r := SortByName(Interpretable(available));
    assert forall l :: l in r <==> multiset(r)[l] > 0;
    r
  }

  /** The window: its tabs, one per language, and the selected index (-1 for none). */
  datatype Window = Window(tabs: seq<Language>, selected: int)

  /** The tabbed pane's selection is -1 or a tab index. */
  predicate Wf(w: Window)
  {
    -1 <= w.selected < |w.tabs|
  }

  /** The first index at or after `from` whose tab has the given name, or -1. */
  function FirstTab(tabs: seq<Language>, name: string, from: nat): (r: int)
    requires from <= |tabs|
    ensures r == -1 || from <= r < |tabs|
    ensures r == -1 <==> forall i :: from <= i < |tabs| ==> tabs[i].name != name
    ensures 0 <= r ==> tabs[r].name == name && forall i :: from <= i < r ==> tabs[i].name != name
    decreases |tabs| - from
  {
    if from == |tabs| then -1
    else if tabs[from].name == name then from
    else FirstTab(tabs, name, from + 1)
  }

  /**
   * `setActiveLanguage`: select the lowest tab whose name equals the
   * argument. With no such tab, or a null argument, the selection stays.
   */
  function SetActiveLanguage(w: Window, languageName: Option<string>): (r: Window)
    ensures r.tabs == w.tabs
    ensures Wf(w) ==> Wf(r)
    ensures languageName.None? ==> r == w
    ensures languageName.Some? ==>
              if exists i :: 0 <= i < |w.tabs| && w.tabs[i].name == languageName.value then
                && 0 <= r.selected < |w.tabs|
                && w.tabs[r.selected].name == languageName.value
                && forall i :: 0 <= i < r.selected ==> w.tabs[i].name != languageName.value
              else r == w
  {
    match languageName
    case None => w
    case Some(n) =>
      var i := FirstTab(w.tabs, n, 0);
      if i < 0 then w else w.(selected := i)
  }

  /**
   * `getActiveLanguage`: null when nothing is selected, otherwise the name of
   * the selected tab.
   */
  function GetActiveLanguage(w: Window): (r: Option<string>)
    requires Wf(w)
    ensures r.None? <==> w.selected < 0
    ensures r.Some? ==> r.value == w.tabs[w.selected].name
  {
    if w.selected < 0 then None else Some(w.tabs[w.selected].name)
  }

  /** Selecting a language that has a tab makes it the active language. */
  lemma SetThenGetActiveLanguage(w: Window, name: string)
    requires Wf(w)
    requires exists i :: 0 <= i < |w.tabs| && w.tabs[i].name == name
    ensures GetActiveLanguage(SetActiveLanguage(w, Some(name))) == Some(name)
  {
  }

  /** Selecting the active language again changes nothing about which language is active. */
  lemma SetActiveLanguageToActive(w: Window)
    requires Wf(w)
    ensures GetActiveLanguage(SetActiveLanguage(w, GetActiveLanguage(w))) == GetActiveLanguage(w)
  {
  }

  /**
   * The window as constructed: one tab per entry of `languages()`, the first
   * tab selected when there is one, then the stored preference applied.
   */
  function Create(available: seq<Language>, preference: Option<string>): (w: Window)
    ensures Wf(w)
    ensures w.tabs == Languages(available)
    ensures w.selected < 0 <==> |w.tabs| == 0
    ensures preference.Some? && FirstTab(w.tabs, preference.value, 0) >= 0 ==>
              w.selected == FirstTab(w.tabs, preference.value, 0)
    ensures 0 < |w.tabs| && (preference.None? || FirstTab(w.tabs, preference.value, 0) < 0) ==> w.selected == 0
  {
    var tabs := Languages(available);
    SetActiveLanguage(Window(tabs, if |tabs| == 0 then -1 else 0), preference)
  }

  /**
   * The language preference after `writeState`: the active language when
   * there is one; a null active language leaves the stored value alone.
   */
  function WriteState(w: Window, stored: Option<string>): (r: Option<string>)
    requires Wf(w)
    ensures w.selected < 0 ==> r == stored
    ensures 0 <= w.selected ==> r.Some? && r.value == w.tabs[w.selected].name
  {
    match GetActiveLanguage(w)
    case None => stored
    case Some(active) => Some(active)
  }

  /**
   * Closing the window and opening it again over the same languages brings
   * back the language that was active.
   */
  lemma ReopenRestoresActiveLanguage(available: seq<Language>, preference: Option<string>,
                                     selected: int, stored: Option<string>)
    requires var w := Create(available, preference); 0 <= selected < |w.tabs|
    ensures var w := Create(available, preference).(selected := selected);
            GetActiveLanguage(Create(available, WriteState(w, stored))) == GetActiveLanguage(w)
  {
  }

  /** Where `print` sends a message. */
  datatype PrintTarget = StandardOutput | TabOutput(index: nat)

  /**
   * `print`: standard output when no tab is selected, otherwise the selected
   * tab's output panel and nowhere else.
   */
  function Print(w: Window): (r: PrintTarget)
    requires Wf(w)
    ensures r.StandardOutput? <==> GetActiveLanguage(w).None?
    ensures r.TabOutput? ==> r.index < |w.tabs| && r.index == w.selected
    ensures r.TabOutput? ==> GetActiveLanguage(w) == Some(w.tabs[r.index].name)
  {
    if w.selected < 0 then StandardOutput else TabOutput(w.selected)
  }
}
