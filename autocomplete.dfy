/** `AutocompleteCombobox`: a drop-down whose choices are kept sorted
    case-insensitively and narrowed, after each key, to the choices holding
    the typed text anywhere, in any case. */
module Autocomplete {
  import opened Text
  import opened Sorting

  /** The keys after which the choices are left as they are. */
  const NavigationKeys: seq<string> :=
    ["BackSpace", "Left", "Right", "Up", "Down", "Return", "Escape", "Tab"]

  /** The sort key `s.lower()`. */
  predicate LowerLe(a: string, b: string)
  {
    StrLe(Lower(a), Lower(b))
  }

  lemma LowerLeOrders()
    ensures TotalPreorder(LowerLe)
  {
    forall a: string, b: string ensures LowerLe(a, b) || LowerLe(b, a) {
      StrLeTotal(Lower(a), Lower(b));
    }
    forall a: string, b: string, c: string | LowerLe(a, b) && LowerLe(b, c)
      ensures LowerLe(a, c)
    {
      StrLeTransitive(Lower(a), Lower(b), Lower(c));
    }
  }

  /** `value in item.lower()` with `value` the typed text lower-cased. */
  function Matches(typed: string): string -> bool
  {
    item => Contains(Lower(item), Lower(typed))
  }

  /** `[item for item in completion_list if value in item.lower()]`. */
  function Matching(items: seq<string>, typed: string): seq<string>
  {
    Filter(items, Matches(typed))
  }

  /** The completion list holds the given choices, each as often as given,
      in case-insensitive order, and a list already in that order is kept. */
  lemma CompletionListSpec(items: seq<string>)
    ensures Sorted(SortBy(items, LowerLe), LowerLe)
    ensures multiset(SortBy(items, LowerLe)) == multiset(items)
    ensures Sorted(items, LowerLe) ==> SortBy(items, LowerLe) == items
  {
    LowerLeOrders();
    SortBySpec(items, LowerLe);
    if Sorted(items, LowerLe) {
      SortBySortedIsIdentity(items, LowerLe);
    }
  }

  /** The choices equal to `key` but for case. */
  function SameLower(key: string): string -> bool
  {
    item => Lower(item) == Lower(key)
  }

  /** The sort is stable: choices equal but for case keep the order they
      were given in. */
  lemma CompletionListStable(items: seq<string>, key: string)
    ensures Filter(SortBy(items, LowerLe), SameLower(key)) == Filter(items, SameLower(key))
  {
    LowerLeOrders();
    forall a, b | SameLower(key)(a) && SameLower(key)(b) ensures LowerLe(a, b) {
      StrLeTotal(Lower(a), Lower(b));
    }
    SortByStable(items, LowerLe, SameLower(key));
  }

  /** A choice stays exactly when it holds the typed text, ignoring case. */
  lemma MatchingMembers(items: seq<string>, typed: string)
    ensures forall item :: item in Matching(items, typed) <==>
      item in items && Contains(Lower(item), Lower(typed))
    ensures |Matching(items, typed)| <= |items|
  {
    FilterMembers(items, Matches(typed));
  }

  /** The choices that stay keep their order: filtering a list in two parts
      is filtering each part. */
  lemma MatchingKeepsOrder(xs: seq<string>, ys: seq<string>, typed: string)
    ensures Matching(xs + ys, typed) == Matching(xs, typed) + Matching(ys, typed)
  {
    FilterAppend(xs, ys, Matches(typed));
  }

  /** With nothing typed every choice stays. */
  lemma MatchingEmpty(items: seq<string>)
    ensures Matching(items, "") == items
  {
    forall k | 0 <= k < |items| ensures Matches("")(items[k]) {
      ContainsTrivial(Lower(items[k]));
    }
    FilterAll(items, Matches(""));
  }

  /** A choice typed in full is among the choices that stay. */
  lemma MatchingItself(items: seq<string>, typed: string)
    requires typed in items
    ensures typed in Matching(items, typed)
  {
    ContainsTrivial(Lower(typed));
    MatchingMembers(items, typed);
  }

  /** The case of the typed text does not matter. */
  lemma MatchingIgnoresCase(items: seq<string>, typed: string, other: string)
    requires Lower(typed) == Lower(other)
    ensures Matching(items, typed) == Matching(items, other)
  {
    FilterSame(items, Matches(typed), Matches(other));
  }

  /** Typing more only narrows the choices: filtering the choices left for
      `typed` by the longer text gives the choices for the longer text. */
  lemma MatchingNarrows(items: seq<string>, typed: string, more: string)
    ensures Matching(Matching(items, typed), typed + more) == Matching(items, typed + more)
  {
    ContainsPrefix(typed, more);
    ContainsLower(typed + more, typed);
    forall item | Matches(typed + more)(item) ensures Matches(typed)(item) {
      ContainsTransitive(Lower(item), Lower(typed + more), Lower(typed));
    }
    FilterNarrow(items, Matches(typed), Matches(typed + more));
  }

  /** The `AutocompleteCombobox` widget as far as its choices go: the
      completion list, the choices the drop-down shows (`self['values']`)
      and the text in its entry (`self.get()`). */
  class AutocompleteCombobox {
    var completionList: seq<string>
    var values: seq<string>
    var text: string

    constructor ()
      ensures completionList == [] && values == [] && text == ""
    {
      completionList := [];
      values := [];
      text := "";
    }

    /** `set_completion_list`: sort the choices by their lower-case form and
        show them all. */
    method SetCompletionList(items: seq<string>)
      modifies this
      ensures completionList == SortBy(items, LowerLe)
      ensures values == completionList
      ensures text == old(text)
    {
      completionList := SortBy(items, LowerLe);
      values := completionList;
    }

    /** `set`: the entry's text is replaced; the choices are not touched. */
    method Set(t: string)
      modifies this
      ensures text == t
      ensures completionList == old(completionList) && values == old(values)
    {
      text := t;
    }

    /** `_handle_keyrelease`: after a navigation key nothing changes;
        after any other key the drop-down shows the choices that hold the
        entry's text, ignoring case, in completion-list order. */
    method HandleKeyRelease(keysym: string)
      modifies this
      ensures keysym in NavigationKeys ==> values == old(values)
      ensures keysym !in NavigationKeys ==> values == Matching(completionList, text)
      ensures completionList == old(completionList) && text == old(text)
    {
      if keysym in NavigationKeys {
        return;
      }
      var value := Lower(text);
      var filtered := Filter(completionList, (item: string) => Contains(Lower(item), value));
      FilterSame(completionList, (item: string) => Contains(Lower(item), value), Matches(text));
      values := filtered;
    }
  }
}
