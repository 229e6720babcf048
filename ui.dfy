/** The client's menu logic (src/client/src/ui.rs): the keyboard shortcut
    each choice gets, the label that shows it, and the moving selection. */
module Menus {
  import opened Results
  import opened Seqs

  /** What a choice sends when picked; a key press is carried as an opaque
      key code. */
  datatype Message = PlaceHolder | Input(code: int) | NextIteration

  datatype Choice = Choice(name: string, message: Message)

  /** A choice with the shortcut requested for it, if any. */
  datatype Item = Item(choice: Choice, short: Option<char>)

  /** `char::default()`. */
  const NoChar: char := '\0'

  /** `to_ascii_lowercase` on one character. */
  function LowerAscii(c: char): char
  {
    if 'A' <= c <= 'Z' then (c as int + 32) as char else c
  }

  /** `to_ascii_uppercase` on one character. */
  function UpperAscii(c: char): char
  {
    if 'a' <= c <= 'z' then (c as int - 32) as char else c
  }

  /** `to_ascii_lowercase` on a string. */
  function Lower(s: string): (r: string)
    ensures |r| == |s| && forall i :: 0 <= i < |s| ==> r[i] == LowerAscii(s[i])
  {
    seq(|s|, i requires 0 <= i < |s| => LowerAscii(s[i]))
  }

  /** `replacen(c, rep, 1)`: the first occurrence of `c` replaced by `rep`. */
  function ReplaceFirst(s: string, c: char, rep: string): string
  {
    match FirstIndexOf(s, c)
    case None => s
    case Some(i) => s[..i] + rep + s[i + 1..]
  }

  /** Choice::set_short: the letter must occur in the lower-cased name; its
      first occurrence in the name as written becomes "(L)", L the letter
      in upper case. */
  function SetShort(c: Choice, letter: char): (r: Choice)
    requires letter in Lower(c.name)
    ensures r.message == c.message
    ensures letter !in c.name ==> r.name == c.name
    ensures letter in c.name ==>
              var i := FirstIndexOf(c.name, letter).value;
              && |r.name| == |c.name| + 2
              && r.name[..i] == c.name[..i] && letter !in r.name[..i]
              && r.name[i..i + 3] == ['(', UpperAscii(letter), ')']
              && r.name[i + 3..] == c.name[i + 1..]
  {
    Choice(ReplaceFirst(c.name, letter, ['(', UpperAscii(letter), ')']), c.message)
  }

  /** A name that holds the letter only in upper case passes set_short's
      check but keeps its label: "Load" with 'l' stays "Load". */
  lemma CapitalOnlyLabelUnchanged()
    ensures 'l' in Lower("Load")
    ensures SetShort(Choice("Load", PlaceHolder), 'l').name == "Load"
  {
    assert Lower("Load")[0] == 'l';
  }

  /** The first letter of `name`, lower-cased, that is not in `used`. */
  function Pick(name: string, used: seq<char>): (r: Option<char>)
    ensures r.Some? ==> r.value in Lower(name) && r.value !in used
    ensures r.None? <==> forall i :: 0 <= i < |name| ==> LowerAscii(name[i]) in used
    ensures r.Some? ==> exists i :: 0 <= i < |name| && r.value == LowerAscii(name[i])
                                   && forall j :: 0 <= j < i ==> LowerAscii(name[j]) in used
  {
    if name == [] then None
    else if LowerAscii(name[0]) !in used then Some(LowerAscii(name[0]))
    else
      var r := Pick(name[1..], used);
      if r.None? then
        assert forall i :: 1 <= i < |name| ==> name[i] == name[1..][i - 1];
        r
      else
        PickShift(name, used, r.value);
        r
  }

  /** The step of Pick's proof past a used first letter: a first free
      letter of the rest is a first free letter of the whole name. */
  lemma PickShift(name: string, used: seq<char>, c: char)
    requires name != [] && LowerAscii(name[0]) in used
    requires c in Lower(name[1..]) && c !in used
    requires exists i :: 0 <= i < |name[1..]| && c == LowerAscii(name[1..][i])
                         && forall j :: 0 <= j < i ==> LowerAscii(name[1..][j]) in used
    ensures c in Lower(name)
    ensures exists i :: 0 <= i < |name| && c == LowerAscii(name[i])
                        && forall j :: 0 <= j < i ==> LowerAscii(name[j]) in used
  {
    var rest := name[1..];
    assert Lower(rest) == Lower(name)[1..];
    var i :| 0 <= i < |rest| && c == LowerAscii(rest[i])
             && forall j :: 0 <= j < i ==> LowerAscii(rest[j]) in used;
    forall j | 0 <= j < i + 1
      ensures LowerAscii(name[j]) in used
    {
      if j > 0 {
        assert name[j] == rest[j - 1];
      }
    }
    assert c == LowerAscii(name[i + 1]);
  }

  /** The shortcut of an item does not panic, given the letters `used` so
      far: a requested letter must be new and occur in the lower-cased
      name; otherwise some letter of the name must be free (and not be
      `char::default()`). */
  predicate StepDefined(item: Item, used: seq<char>)
  {
    match item.short
    case Some(letter) => letter !in used && letter in Lower(item.choice.name)
    case None => Pick(item.choice.name, used).Some? && Pick(item.choice.name, used).value != NoChar
  }

  /** The shortcut an item gets, given the letters `used` so far. */
  function ShortOf(item: Item, used: seq<char>): (c: char)
    requires StepDefined(item, used)
    ensures c !in used && c in Lower(item.choice.name)
    ensures item.short.Some? ==> c == item.short.value
  {
    match item.short
    case Some(letter) => letter
    case None => Pick(item.choice.name, used).value
  }

  // ---------------------------------------------------------------------
  // extrapolate_shorts as written: only requested letters are recorded

  /** The requested letters of `items`, in order: what `used_chars` holds. */
  function Requested(items: seq<Item>): seq<char>
  {
    if items == [] then []
    else
      var last := items[|items| - 1];
      Requested(items[..|items| - 1]) + (if last.short.Some? then [last.short.value] else [])
  }

  /** extrapolate_shorts does not panic on `items`. */
  predicate ShortsDefined(items: seq<Item>)
  {
    forall k :: 0 <= k < |items| ==> StepDefined(items[k], Requested(items[..k]))
  }

  /** The shortcuts extrapolate_shorts assigns. */
  function Shorts(items: seq<Item>): (r: seq<char>)
    requires ShortsDefined(items)
    ensures |r| == |items|
  {
    seq(|items|, k requires 0 <= k < |items| => ShortOf(items[k], Requested(items[..k])))
  }

  /** The choices extrapolate_shorts returns, each labelled with its
      shortcut. */
  function Labelled(items: seq<Item>): (r: seq<Choice>)
    requires ShortsDefined(items)
    ensures |r| == |items|
  {
    seq(|items|, k requires 0 <= k < |items| => SetShort(items[k].choice, Shorts(items)[k]))
  }

  /** Menu::extrapolate_shorts: one choice and one shortcut per item, in
      order; a requested shortcut is kept, otherwise the first letter of the
      name not yet requested is taken, and each choice is labelled with its
      shortcut. */
  method ExtrapolateShorts(items: seq<Item>) returns (choices: seq<Choice>, chars: seq<char>)
    requires ShortsDefined(items)
    ensures chars == Shorts(items) && choices == Labelled(items)
    ensures |choices| == |chars| == |items|
    ensures forall k :: 0 <= k < |items| && items[k].short.Some? ==> chars[k] == items[k].short.value
    ensures forall k :: 0 <= k < |items| ==> choices[k] == SetShort(items[k].choice, chars[k])
  {
    ghost var shorts := Shorts(items);
    ghost var labelled := Labelled(items);
    var usedChars: seq<char> := [];
    choices := [];
    chars := [];
    var i := 0;
    while i < |items|
      invariant 0 <= i <= |items|
      invariant usedChars == Requested(items[..i])
      invariant chars == shorts[..i]
      invariant choices == labelled[..i]
    {
      var item := items[i];
      RequestedStep(items, i);
      var letter: char;
      match item.short {
        case Some(l) =>
          usedChars := usedChars + [l];
          letter := l;
        case None =>
          letter := FirstFree(item.choice.name, usedChars);
      }
      assert letter == shorts[i];
      PrefixStep(shorts, i);
      PrefixStep(labelled, i);
      chars := chars + [letter];
      choices := choices + [SetShort(item.choice, letter)];
      i := i + 1;
    }
    assert shorts[..|items|] == shorts && labelled[..|items|] == labelled;
  }

  /** One more item adds its requested letter, if any. */
  lemma RequestedStep(items: seq<Item>, i: nat)
    requires i < |items|
    ensures Requested(items[..i + 1])
         == Requested(items[..i]) + (if items[i].short.Some? then [items[i].short.value] else [])
  {
    assert items[..i + 1][..i] == items[..i];
  }

  /** The inner loop of extrapolate_shorts: the first letter of the name,
      lower-cased, not in `used`; `char::default()` when there is none. */
  method FirstFree(name: string, used: seq<char>) returns (found: char)
    ensures found == if Pick(name, used).Some? then Pick(name, used).value else NoChar
  {
    found := NoChar;
    var i := 0;
    while i < |name|
      invariant 0 <= i <= |name|
      invariant forall j :: 0 <= j < i ==> LowerAscii(name[j]) in used
      invariant Pick(name, used) == Pick(name[i..], used)
    {
      var letter := LowerAscii(name[i]);
      if letter in used {
        assert name[i..][1..] == name[i + 1..];
        i := i + 1;
      } else {
        found := letter;
        return;
      }
    }
  }

  /** Requesting a letter an earlier item requested panics. */
  lemma {:induction false} RequestedTwicePanics(items: seq<Item>, i: nat, j: nat)
    requires i < j < |items| && items[i].short.Some? && items[i].short == items[j].short
    ensures !ShortsDefined(items)
  {
    RequestedKept(items[..j], i);
    assert items[..j][i] == items[i];
  }

  /** Every requested letter of `items` is among their requested letters. */
  lemma {:induction false} RequestedKept(items: seq<Item>, i: nat)
    requires i < |items| && items[i].short.Some?
    ensures items[i].short.value in Requested(items)
  {
    var n := |items| - 1;
    if i < n {
      RequestedKept(items[..n], i);
      assert items[..n][i] == items[i];
    }
  }

  /** The main menu's items: five choices, none with a requested shortcut. */
  const MainMenu: seq<Item> := [
    Item(Choice("load", PlaceHolder), None),
    Item(Choice("lew", PlaceHolder), None),
    Item(Choice("join", PlaceHolder), None),
    Item(Choice("host", PlaceHolder), None),
    Item(Choice("quit", PlaceHolder), None)]

  /** The letter each main menu item picks when nothing is recorded. */
  lemma MainMenuPicks()
    ensures forall k :: 0 <= k < 5 ==> Pick(MainMenu[k].choice.name, []) == Some(MainMenu[k].choice.name[0])
  {
    assert Pick("load", []) == Some('l');
    assert Pick("lew", []) == Some('l');
    assert Pick("join", []) == Some('j');
    assert Pick("host", []) == Some('h');
    assert Pick("quit", []) == Some('q');
  }

  /** No main menu item requests a letter, so none is ever recorded. */
  lemma MainMenuRequestsNothing()
    ensures forall k :: 0 <= k <= 5 ==> Requested(MainMenu[..k]) == []
  {
    forall k | 0 <= k <= 5
      ensures Requested(MainMenu[..k]) == []
    {
      NoneRequested(MainMenu[..k]);
    }
  }

  /** extrapolate_shorts does not panic on the main menu: every name has
      a first letter to pick. */
  lemma MainMenuShortsDefined()
    ensures ShortsDefined(MainMenu)
  {
    MainMenuRequestsNothing();
    MainMenuPicks();
    forall k | 0 <= k < 5
      ensures StepDefined(MainMenu[k], Requested(MainMenu[..k]))
    {
      var name := MainMenu[k].choice.name;
      assert MainMenu[k].short == None;
      assert name[0] != NoChar;
      assert Pick(name, []) == Some(name[0]);
    }
  }

  /** Since picked letters are never recorded, "load" and "lew" both get
      'l' in the main menu. */
  lemma MainMenuDuplicateShortcut()
    ensures ShortsDefined(MainMenu)
    ensures Shorts(MainMenu) == ['l', 'l', 'j', 'h', 'q']
  {
    MainMenuRequestsNothing();
    MainMenuShortsDefined();
    var s := Shorts(MainMenu);
    var expected := ['l', 'l', 'j', 'h', 'q'];
    forall k | 0 <= k < 5
      ensures s[k] == expected[k]
    {
      MainMenuPicks();
      assert s[k] == Pick(MainMenu[k].choice.name, []).value;
    }
    assert |s| == |expected|;
  }

  /** Items that request nothing leave `used_chars` empty. */
  lemma {:induction false} NoneRequested(items: seq<Item>)
    requires forall k :: 0 <= k < |items| ==> items[k].short.None?
    ensures Requested(items) == []
  {
    if items != [] {
      NoneRequested(items[..|items| - 1]);
    }
  }

  // ---------------------------------------------------------------------
  // extrapolate_shorts as evidently intended: every assigned letter is
  // recorded

  /** The shortcuts assigned when each one, requested or picked, is
      recorded before the next item. */
  function ShortsRecorded(items: seq<Item>): (r: Option<seq<char>>)
    ensures r.Some? ==> |r.value| == |items|
  {
    if items == [] then Some([])
    else
      var last := items[|items| - 1];
      match ShortsRecorded(items[..|items| - 1])
      case None => None
      case Some(before) =>
        if StepDefined(last, before) then Some(before + [ShortOf(last, before)]) else None
  }

  /** With every letter recorded, no two choices share a shortcut. */
  lemma {:induction false} RecordedShortsDistinct(items: seq<Item>)
    requires ShortsRecorded(items).Some?
    ensures var s := ShortsRecorded(items).value;
            forall i, j :: 0 <= i < j < |s| ==> s[i] != s[j]
  {
    if items != [] {
      var n := |items| - 1;
      RecordedShortsDistinct(items[..n]);
    }
  }

  /** One more item, which requests nothing and picks `c`, extends the
      recorded shortcuts by `c`. */
  lemma RecordedPick(items: seq<Item>, i: nat, before: seq<char>, c: char)
    requires i < |items| && ShortsRecorded(items[..i]) == Some(before)
    requires items[i].short.None? && Pick(items[i].choice.name, before) == Some(c) && c != NoChar
    ensures ShortsRecorded(items[..i + 1]) == Some(before + [c])
  {
    assert items[..i + 1][..i] == items[..i];
  }

  /** Recorded, the two main menu choices that share their first letter
      get distinct shortcuts: "load" gets 'l' and "lew" gets 'e'. */
  lemma MainMenuRecorded()
    ensures ShortsRecorded(MainMenu[..2]) == Some(['l', 'e'])
  {
    assert MainMenu[..0] == [];
    assert Pick(MainMenu[0].choice.name, []) == Some('l');
    RecordedPick(MainMenu, 0, [], 'l');
    assert [] + ['l'] == ['l'];
    assert "lew"[1..] == "ew";
    assert Pick(MainMenu[1].choice.name, ['l']) == Some('e');
    RecordedPick(MainMenu, 1, ['l'], 'e');
    assert ['l'] + ['e'] == ['l', 'e'];
  }

  // ---------------------------------------------------------------------
  // The selection

  /** The index `next` selects: the first choice when nothing is selected
      or the last one is; the following one otherwise. */
  function NextIndex(selected: Option<nat>, len: nat): nat
    requires selected.Some? ==> len > 0
  {
    match selected
    case None => 0
    case Some(i) => if i >= len - 1 then 0 else i + 1
  }

  /** The index `previous` selects: the first choice when nothing is
      selected, the last one from the first, the preceding one otherwise. */
  function PrevIndex(selected: Option<nat>, len: nat): nat
    requires selected == Some(0) ==> len > 0
  {
    match selected
    case None => 0
    case Some(i) => if i == 0 then len - 1 else i - 1
  }

  /** On a non-empty menu, `previous` undoes `next` and `next` undoes
      `previous`. */
  lemma NextPreviousRoundTrip(i: nat, len: nat)
    requires i < len
    ensures PrevIndex(Some(NextIndex(Some(i), len)), len) == i
    ensures NextIndex(Some(PrevIndex(Some(i), len)), len) == i
  {
  }

  /** On a non-empty menu, `next` always selects a choice of the menu, and so
      does `previous` from no selection or a selection within the menu. */
  lemma SelectionInRange(selected: Option<nat>, len: nat)
    requires len > 0
    ensures NextIndex(selected, len) < len
    ensures (selected.None? || selected.value < len) ==> PrevIndex(selected, len) < len
  {
  }

  class Menu {
    var buttons: seq<Choice>
    var shortcuts: seq<char>
    /** The selection of the list's state. */
    var selected: Option<nat>

    /** Menu::new: the labelled choices and their shortcuts, nothing
        selected. */
    constructor (items: seq<Item>)
      requires ShortsDefined(items)
      ensures buttons == Labelled(items) && shortcuts == Shorts(items) && selected == None
    {
      var choices, chars := ExtrapolateShorts(items);
      buttons := choices;
      shortcuts := chars;
      selected := None;
    }

    method Next()
      modifies this
      requires selected.Some? ==> |buttons| > 0
      ensures buttons == old(buttons) && shortcuts == old(shortcuts)
      ensures selected == Some(NextIndex(old(selected), |buttons|))
    {
      var i := match selected
        case Some(i) => if i >= |buttons| - 1 then 0 else i + 1
        case None => 0;
      selected := Some(i);
    }

    method Previous()
      modifies this
      requires selected == Some(0) ==> |buttons| > 0
      ensures buttons == old(buttons) && shortcuts == old(shortcuts)
      ensures selected == Some(PrevIndex(old(selected), |buttons|))
    {
      var i := match selected
        case Some(i) => if i == 0 then |buttons| - 1 else i - 1
        case None => 0;
      selected := Some(i);
    }

    method Unselect()
      modifies this
      ensures selected == None
      ensures buttons == old(buttons) && shortcuts == old(shortcuts)
    {
      selected := None;
    }
  }
}
