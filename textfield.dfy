/** The Textfield's autocomplete: while the user types, the candidate list
    given by the host is filtered against the typed text and shown as an
    overlay list that the arrow keys walk through (wrapping around at both
    ends) and Enter commits. What the widget keeps is the state record
    `{populated, list, open, selIndex}`; the host hears about text through
    `onInput` and about a plain Enter through `onEnter`. */
module Textfield {
  import opened Common
  import opened JsString
  import opened JsArray

  /** `autocompleteFrom` when the host does not give one. */
  const DEFAULT_AUTOCOMPLETE_FROM := 3

  /** The values of `event.key` the widget tells apart. */
  datatype Key = ArrowUp | ArrowDown | Enter | OtherKey

  /** The props the autocomplete logic reads: the candidates (undefined turns
      autocomplete off), the minimum query length, and whether an `onEnter`
      callback is given. */
  datatype Props = Props(autocomplete: Option<seq<string>>, autocompleteFrom: Option<int>, hasOnEnter: bool)

  /** The effective `autocompleteFrom`, its default filled in. */
  function MinQueryLength(p: Props): (n: int)
    ensures p.autocompleteFrom.None? ==> n == DEFAULT_AUTOCOMPLETE_FROM
    ensures p.autocompleteFrom.Some? ==> n == p.autocompleteFrom.value
  {
    match p.autocompleteFrom
    case None => DEFAULT_AUTOCOMPLETE_FROM
    case Some(n) => n
  }

  // ----------------------------------------------------------------------------------------------
  // The candidate filter

  /** The text the candidates are matched against: `val.toLowerCase().trim()`. */
  function Query(val: string): string
  {
    Trim(ToLowerCase(val))
  }

  /** The query does not depend on the case of the typed text. */
  lemma QueryIgnoresCase(val: string)
    ensures Query(ToLowerCase(val)) == Query(val)
  {
    ToLowerCaseIdempotent(val);
  }

  /** `v.toLowerCase().includes(query)` for the candidate `v`. */
  predicate Matches(candidate: string, val: string)
  {
    Includes(ToLowerCase(candidate), Query(val))
  }

  /** The callback `v => v.toLowerCase().includes(val.toLowerCase().trim())`. */
  function MatcherOf(val: string): string -> bool
  {
    c => Matches(c, val)
  }

  /** `autocomplete.filter(...)`: the candidates that match the typed text,
      in the host's order. */
  function Suggestions(candidates: seq<string>, val: string): seq<string>
  {
    Filter(candidates, MatcherOf(val))
  }

  /** The suggestions are exactly the candidates that match the typed text. */
  lemma SuggestionsAreMatches(candidates: seq<string>, val: string)
    ensures forall c :: c in Suggestions(candidates, val) <==> c in candidates && Matches(c, val)
  {
    FilterMembers(candidates, MatcherOf(val));
  }

  /** The filter is case-insensitive in the typed text. */
  lemma SuggestionsIgnoreCase(candidates: seq<string>, val: string)
    ensures Suggestions(candidates, ToLowerCase(val)) == Suggestions(candidates, val)
  {
    QueryIgnoresCase(val);
    FilterAgreeing(candidates, MatcherOf(ToLowerCase(val)), MatcherOf(val));
  }

  // ----------------------------------------------------------------------------------------------
  // What the autocomplete does to the overlay

  /** The part of the state the autocomplete and the keyboard touch. */
  datatype Overlay = Overlay(list: seq<string>, open: bool, selIndex: int)
  {
    /** The highlight cursor is -1 or one of the listed rows. */
    predicate CursorInRange()
    {
      -1 <= selIndex < |list|
    }
  }

  /** `handleAutocomplete(val)` on the overlay `s`. Without candidates nothing
      changes. A query long enough (measured before trimming) that matches
      something opens the list of matches with nothing highlighted; one that
      matches nothing, or one that is too short, only closes the list. */
  function Autocomplete(p: Props, val: string, s: Overlay): (r: Overlay)
    ensures s.CursorInRange() ==> r.CursorInRange()
  {
    match p.autocomplete
    case None => s
    case Some(candidates) =>
      if |val| >= MinQueryLength(p) then
        var list := Suggestions(candidates, val);
        if |list| < 1 then s.(open := false) else Overlay(list, true, -1)
      else if s.open then s.(open := false) else s
  }

  /** With candidates, the overlay ends up open exactly when the query is long
      enough and matches; it then shows the matches with no highlight, and
      otherwise keeps its list and highlight. */
  lemma AutocompleteOpensIffMatches(p: Props, val: string, s: Overlay)
    requires p.autocomplete.Some?
    ensures var r := Autocomplete(p, val, s);
      && (r.open <==> |val| >= MinQueryLength(p) && Suggestions(p.autocomplete.value, val) != [])
      && (r.open ==> r.list == Suggestions(p.autocomplete.value, val) && r.selIndex == -1)
      && (!r.open ==> r.list == s.list && r.selIndex == s.selIndex)
  {
  }

  /** Without candidates the autocomplete changes nothing. */
  lemma AutocompleteOffChangesNothing(p: Props, val: string, s: Overlay)
    requires p.autocomplete.None?
    ensures Autocomplete(p, val, s) == s
  {
  }

  /** The query "red". */
  lemma RedQuery()
    ensures Query("red") == "red"
  {
    ToLowerCaseKeepsLowerCase("red");
    assert !IsWhiteSpace('r') && !IsWhiteSpace('d');
    TrimUnpadded("red");
  }

  /** Neither "green" nor "blue" contains "red". */
  lemma NoRedIn(s: string)
    requires s == "green" || s == "blue"
    ensures !Includes(s, "red")
  {
    IncludesIff(s, "red");
    forall i | 0 <= i && i + 3 <= |s| ensures !OccursAt(s, "red", i) {
      assert s[i..i + 3][0] == s[i] && s[i..i + 3][2] == s[i + 2];
      assert s[i] != 'r' || s[i + 2] != 'd';
    }
  }

  /** Of "red", "green" and "blue", only "red" matches "red". */
  lemma RedSuggestions()
    ensures Suggestions(["red", "green", "blue"], "red") == ["red"]
  {
    RedQuery();
    ToLowerCaseKeepsLowerCase("red");
    ToLowerCaseKeepsLowerCase("green");
    ToLowerCaseKeepsLowerCase("blue");
    NoRedIn("green");
    NoRedIn("blue");
    assert Matches("red", "red");
    var cs := ["red", "green", "blue"];
    assert Suggestions(cs[2..], "red") == [];
    assert Suggestions(cs[1..], "red") == [];
  }

  /** Latin-1 capitals are lower-cased too: the candidate "\U{00D6}sterreich"
      matches the typed text "\U{00F6}ster". */
  lemma ScenarioLatinCapital()
    ensures Matches("\U{00D6}sterreich", "\U{00F6}ster")
  {
    var q := "\U{00F6}ster";
    LatinQuery();
    LatinCandidate();
    assert q <= "\U{00F6}sterreich";
  }

  /** The typed text "\U{00F6}ster" is its own query. */
  lemma LatinQuery()
    ensures Query("\U{00F6}ster") == "\U{00F6}ster"
  {
    var q := "\U{00F6}ster";
    assert !IsWhiteSpace('\U{00F6}') && !IsWhiteSpace('r');
    assert q[0] == '\U{00F6}' && q[4] == 'r' && |q| == 5;
    TrimUnpadded(q);
    ToLowerCaseKeepsLowerCase(q);
  }

  /** Lower-casing "\U{00D6}sterreich" changes only its capital. */
  lemma LatinCandidate()
    ensures ToLowerCase("\U{00D6}sterreich") == "\U{00F6}sterreich"
  {
    var c := "\U{00D6}sterreich";
    assert c == ['\U{00D6}'] + ("ster" + "reich");
    assert "\U{00F6}sterreich" == ['\U{00F6}'] + ("ster" + "reich");
    ToLowerCaseKeepsLowerCase("ster");
    ToLowerCaseKeepsLowerCase("reich");
    ToLowerCaseAppend("ster", "reich");
    ToLowerCaseAppend(['\U{00D6}'], "ster" + "reich");
  }

  /** Candidates "red", "green", "blue" with the default `autocompleteFrom`:
      typing "re" keeps the overlay closed, typing "red" opens it on ["red"]. */
  lemma ScenarioAutocomplete()
    ensures var p := Props(Some(["red", "green", "blue"]), None, false);
      && Autocomplete(p, "re", Overlay([], false, -1)) == Overlay([], false, -1)
      && Autocomplete(p, "red", Overlay([], false, -1)) == Overlay(["red"], true, -1)
  {
    RedSuggestions();
  }

  // ----------------------------------------------------------------------------------------------
  // The wrap-around cursor

  /** `ArrowDown` over `n` rows: from no highlight to the first row, from the
      last row back to the first, otherwise to the next row. */
  function NextDown(i: int, n: int): (r: int)
    requires n > 0
    ensures i == -1 ==> r == 0
    ensures 0 <= i < n ==> r == (i + 1) % n
    ensures -1 <= i < n ==> 0 <= r < n
  {
    if i == -1 then 0 else if i == n - 1 then 0 else i + 1
  }

  /** `ArrowUp` over `n` rows: from no highlight or the first row to the last
      row, otherwise to the previous row. */
  function NextUp(i: int, n: int): (r: int)
    requires n > 0
    ensures i == -1 ==> r == n - 1
    ensures 0 <= i < n ==> r == (i + n - 1) % n
    ensures -1 <= i < n ==> 0 <= r < n
  {
    if i == -1 then n - 1 else if i == 0 then n - 1 else i - 1
  }

  /** Up undoes Down and Down undoes Up on every row. */
  lemma UpDownInverse(i: int, n: int)
    requires 0 <= i < n
    ensures NextUp(NextDown(i, n), n) == i
    ensures NextDown(NextUp(i, n), n) == i
  {
  }

  /** `k` consecutive `ArrowDown`s. */
  function Downs(i: int, n: int, k: nat): (r: int)
    requires n > 0 && -1 <= i < n
    ensures -1 <= r < n
    decreases k
  {
    if k == 0 then i else Downs(NextDown(i, n), n, k - 1)
  }

  /** `k` consecutive `ArrowUp`s. */
  function Ups(i: int, n: int, k: nat): (r: int)
    requires n > 0 && -1 <= i < n
    ensures -1 <= r < n
    decreases k
  {
    if k == 0 then i else Ups(NextUp(i, n), n, k - 1)
  }

  /** `a + b` Downs are `a` Downs followed by `b` Downs. */
  lemma {:induction false} DownsAdd(i: int, n: int, a: nat, b: nat)
    requires n > 0 && -1 <= i < n
    ensures Downs(i, n, a + b) == Downs(Downs(i, n, a), n, b)
    decreases a
  {
    if a > 0 {
      DownsAdd(NextDown(i, n), n, a - 1, b);
    }
  }

  /** The last of `k` Downs is one Down from where the first `k - 1` led. */
  lemma {:induction false} DownsLast(i: int, n: int, k: nat)
    requires n > 0 && -1 <= i < n && k > 0
    ensures Downs(i, n, k) == NextDown(Downs(i, n, k - 1), n)
  {
    DownsAdd(i, n, k - 1, 1);
  }

  /** Below the last row, Downs just count up. */
  lemma {:induction false} DownsCountUp(i: int, n: int, k: nat)
    requires 0 <= i && i + k < n
    ensures Downs(i, n, k) == i + k
    decreases k
  {
    if k > 0 {
      DownsCountUp(i + 1, n, k - 1);
    }
  }

  /** Above the first row, Ups just count down. */
  lemma {:induction false} UpsCountDown(i: int, n: int, k: nat)
    requires k <= i < n
    ensures Ups(i, n, k) == i - k
    decreases k
  {
    if k > 0 {
      UpsCountDown(i - 1, n, k - 1);
    }
  }

  /** `n` consecutive Downs return to the starting row. */
  lemma DownsCycle(i: int, n: int)
    requires 0 <= i < n
    ensures Downs(i, n, n) == i
  {
    DownsAdd(i, n, n - 1 - i, 1 + i);
    DownsCountUp(i, n, n - 1 - i);
    DownsCountUp(0, n, i);
  }

  /** Starting with no highlight, the first `n` Downs visit the rows in order,
      each exactly once: the `k`-th Down lands on row `k - 1`. */
  lemma DownsFromNoHighlight(n: int, k: nat)
    requires 1 <= k <= n
    ensures Downs(-1, n, k) == k - 1
  {
    DownsCountUp(0, n, k - 1);
  }

  /** Starting with no highlight, the `k`-th Up lands on row `n - k`: the
      rows in the reverse order. */
  lemma UpsFromNoHighlight(n: int, k: nat)
    requires 1 <= k <= n
    ensures Ups(-1, n, k) == n - k
  {
    UpsCountDown(n - 1, n, k - 1);
  }

  /** `k` Ups undo `k` Downs from every row. */
  lemma {:induction false} UpsUndoDowns(i: int, n: int, k: nat)
    requires 0 <= i < n
    ensures Ups(Downs(i, n, k), n, k) == i
    decreases k
  {
    if k > 0 {
      var d := Downs(i, n, k - 1);
      DownsLast(i, n, k);
      assert d != -1 by {
        if k - 1 > 0 {
          DownsLast(i, n, k - 1);
        }
      }
      UpDownInverse(d, n);
      UpsUndoDowns(i, n, k - 1);
    }
  }

  /** Three rows, no highlight: two Downs reach row 1, two more wrap to row 0. */
  lemma ScenarioWrapAround()
    ensures Downs(-1, 3, 2) == 1 && Downs(1, 3, 2) == 0
  {
  }

  // ----------------------------------------------------------------------------------------------
  // The component instance

  /** One mounted Textfield: its state record and the host callbacks it has
      made. Each handler receives the props of the render it was created in. */
  class Widget {
    var populated: bool
    var list: seq<string>
    var open: bool
    var selIndex: int
    /** Every `onInput` call so far, oldest first. */
    var inputs: seq<string>
    /** How many times `onEnter` has been called. */
    var enters: nat

    /** The highlight cursor is -1 or one of the listed rows. */
    predicate Valid()
      reads this
    {
      View().CursorInRange()
    }

    /** The overlay part of the state. */
    function View(): Overlay
      reads this
    {
      Overlay(list, open, selIndex)
    }

    /** The initial state: not focused, empty list, closed, no highlight. */
    constructor ()
      ensures Valid()
      ensures !populated && list == [] && !open && selIndex == -1
      ensures inputs == [] && enters == 0
    {
      populated, list, open, selIndex := false, [], false, -1;
      inputs, enters := [], 0;
    }

    /** `handleAutocomplete`. */
    method HandleAutocomplete(p: Props, val: string)
      requires Valid()
      modifies this
      ensures Valid()
      ensures View() == Autocomplete(p, val, old(View()))
      ensures populated == old(populated) && inputs == old(inputs) && enters == old(enters)
    {
      ghost var before := View();
      if p.autocomplete.Some? {
        if |val| >= MinQueryLength(p) {
          var matches := Suggestions(p.autocomplete.value, val);
          assert Autocomplete(p, val, before) ==
            if |matches| < 1 then before.(open := false) else Overlay(matches, true, -1);
          if |matches| < 1 {
            open := false;
          } else {
            open, list, selIndex := true, matches, -1;
          }
        } else {
          if open {
            open := false;
          }
        }
      }
    }

    /** `handleInput`: runs the autocomplete on the new text, then passes the
        raw text to `onInput`. */
    method HandleInput(p: Props, text: string)
      requires Valid()
      modifies this
      ensures Valid()
      ensures View() == Autocomplete(p, text, old(View()))
      ensures inputs == old(inputs) + [text]
      ensures populated == old(populated) && enters == old(enters)
    {
      HandleAutocomplete(p, text);
      inputs := inputs + [text];
    }

    /** `handleFocus`. */
    method HandleFocus()
      requires Valid()
      modifies this
      ensures Valid()
      ensures populated && View() == old(View())
      ensures inputs == old(inputs) && enters == old(enters)
    {
      populated := true;
    }

    /** `handleBlur`: closes the list but keeps its rows and highlight. */
    method HandleBlur()
      requires Valid()
      modifies this
      ensures Valid()
      ensures !populated && !open && list == old(list) && selIndex == old(selIndex)
      ensures inputs == old(inputs) && enters == old(enters)
    {
      populated, open := false, false;
    }

    /** `handleSelect` (a click on a row, or Enter on the highlighted row):
        passes the row's text to `onInput` and closes the list. */
    method HandleSelect(val: string)
      requires Valid()
      modifies this
      ensures Valid()
      ensures inputs == old(inputs) + [val]
      ensures !open && list == old(list) && selIndex == old(selIndex)
      ensures populated == old(populated) && enters == old(enters)
    {
      inputs := inputs + [val];
      open := false;
    }

    /** `handleKeyDown`. With rows listed, the arrows move the highlight with
        wrap-around and Enter commits the highlighted row when the list is
        open, calling `onEnter` otherwise; with no rows only Enter does
        anything, calling `onEnter`. The list itself never changes here. The
        list scroll after a step is the `ListScroll` decision. */
    method HandleKeyDown(p: Props, key: Key)
      requires Valid()
      modifies this
      ensures Valid()
      ensures list == old(list) && populated == old(populated)
      ensures old(|list|) == 0 ==>
        && open == old(open) && selIndex == old(selIndex) && inputs == old(inputs)
        && enters == old(enters) + (if key == Enter && p.hasOnEnter then 1 else 0)
      ensures old(|list|) > 0 && key == ArrowUp ==>
        && selIndex == NextUp(old(selIndex), |list|)
        && open == old(open) && inputs == old(inputs) && enters == old(enters)
      ensures old(|list|) > 0 && key == ArrowDown ==>
        && selIndex == NextDown(old(selIndex), |list|)
        && open == old(open) && inputs == old(inputs) && enters == old(enters)
      ensures old(|list|) > 0 && key == Enter && old(open) && old(selIndex) > -1 ==>
        && inputs == old(inputs) + [list[old(selIndex)]] && !open
        && selIndex == old(selIndex) && enters == old(enters)
      ensures old(|list|) > 0 && key == Enter && !(old(open) && old(selIndex) > -1) ==>
        && enters == old(enters) + (if p.hasOnEnter then 1 else 0)
        && open == old(open) && selIndex == old(selIndex) && inputs == old(inputs)
      ensures key == OtherKey ==>
        open == old(open) && selIndex == old(selIndex) && inputs == old(inputs) && enters == old(enters)
    {
      if |list| > 0 {
        match key
        case ArrowUp =>
          selIndex := NextUp(selIndex, |list|);
        case ArrowDown =>
          selIndex := NextDown(selIndex, |list|);
        case Enter =>
          if open && selIndex > -1 {
            HandleSelect(list[selIndex]);
          } else if p.hasOnEnter {
            enters := enters + 1;
          }
        case OtherKey =>
      } else if key == Enter && p.hasOnEnter {
        enters := enters + 1;
      }
    }
  }
}
