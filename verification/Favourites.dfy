/**
 * The favourite button of the recipe modal on the favourites page. The
 * favourite ids live in memory and, as JSON, in local storage under
 * `favouriteRecipes`; a click flips the button's `active` class and then
 * adds or removes the recipe's id.
 */
module Favourites {
  import opened Wrappers
  import opened JsText

  /** What one click leaves behind. */
  datatype Click = Click(
    active: bool,                  // the button's `active` class after the click
    favourites: seq<string>,       // the in-memory id list after the click
    persisted: Option<seq<string>>, // what was written to local storage, if anything
    threw: bool)                   // the handler stopped with a TypeError

  /** The id list the page starts from: the stored list, or `[]` when nothing is stored. */
  function Load(stored: Option<seq<string>>): (r: seq<string>)
    ensures stored.None? ==> r == []
    ensures stored.Some? ==> r == stored.value
  {
    stored.GetOr([])
  }

  /** Whether the modal renders the button as active: the recipe's id is a favourite. */
  predicate ShownAsFavourite(favourites: seq<string>, id: string) {
    id in favourites
  }

  /**
   * The handler as written. The id list is declared `const`, so the removal
   * branch, which assigns a filtered copy to it, throws a TypeError before
   * anything is persisted; only the add branch changes and saves the list.
   */
  function ClickAsWritten(favourites: seq<string>, id: string, active: bool): (c: Click)
    ensures c.active == !active
    ensures id in favourites ==> c.threw && c.favourites == favourites && c.persisted.None?
    ensures id !in favourites ==>
      !c.threw && c.favourites == favourites + [id] && c.persisted == Some(c.favourites)
  {
    if id in favourites then Click(!active, favourites, None, true)
    else Click(!active, favourites + [id], Some(favourites + [id]), false)
  }

  /** Local storage after a click: the persisted list, or what was there before. */
  function StoredAfter(stored: Option<seq<string>>, c: Click): Option<seq<string>> {
    if c.persisted.Some? then c.persisted else stored
  }

  /**
   * As written, a favourite can never be removed: clicking twice on a recipe
   * that was not a favourite leaves it stored as a favourite while the button
   * shows it as not favourited.
   */
  lemma ClickTwiceKeepsFavourite(stored: seq<string>, id: string)
    requires id !in stored
    ensures var first := ClickAsWritten(stored, id, ShownAsFavourite(stored, id));
      var second := ClickAsWritten(first.favourites, id, first.active);
      second.threw && !second.active
      && id in second.favourites
      && StoredAfter(StoredAfter(Some(stored), first), second) == Some(stored + [id])
  {
  }

  /** Removing every occurrence of `id`, keeping the rest in order. */
  function Without(favourites: seq<string>, id: string): (r: seq<string>)
    ensures id !in r
    ensures forall x :: x != id ==> (x in r <==> x in favourites)
    ensures |r| <= |favourites|
  {
    Filter(favourites, x => x != id)
  }

  /** The handler as evidently intended: remove the id if present, otherwise append it. */
  function Toggle(favourites: seq<string>, id: string): (r: seq<string>)
    ensures id in r <==> id !in favourites
    ensures forall x :: x != id ==> (x in r <==> x in favourites)
  {
    if id in favourites then Without(favourites, id) else favourites + [id]
  }

  /** The corrected click: the list is updated and persisted in both branches. */
  function ClickIntended(favourites: seq<string>, id: string, active: bool): (c: Click)
    ensures !c.threw && c.active == !active
    ensures c.favourites == Toggle(favourites, id) && c.persisted == Some(c.favourites)
  {
    var next := Toggle(favourites, id);
    Click(!active, next, Some(next), false)
  }

  /** Adding an id that is not a favourite appends it once and leaves the rest as it was. */
  lemma ToggleAdds(favourites: seq<string>, id: string)
    requires id !in favourites
    ensures Toggle(favourites, id) == favourites + [id]
    ensures Toggle(favourites, id)[..|favourites|] == favourites
  {
  }

  /** Toggling twice from a non-favourite gives the original list back. */
  lemma ToggleTwiceRestores(favourites: seq<string>, id: string)
    requires id !in favourites
    ensures Toggle(Toggle(favourites, id), id) == favourites
  {
    var added := favourites + [id];
    FilterAppend(favourites, [id], x => x != id);
    FilterKeepsAll(favourites, x => x != id);
    assert Filter([id], x => x != id) == [];
  }

  /** Toggling twice keeps exactly the same favourites, whichever way it started. */
  lemma ToggleTwiceSameMembers(favourites: seq<string>, id: string)
    ensures forall x :: x in Toggle(Toggle(favourites, id), id) <==> x in favourites
  {
  }

  /**
   * With the intended handler the button always agrees with the stored list:
   * if it was shown correctly before a click, it is shown correctly after.
   */
  lemma ClickKeepsButtonInSync(favourites: seq<string>, id: string, active: bool)
    requires active == ShownAsFavourite(favourites, id)
    ensures var c := ClickIntended(favourites, id, active);
      c.active == ShownAsFavourite(c.favourites, id) && c.persisted == Some(c.favourites)
  {
  }

  /** A list without repeated ids keeps that property under the intended toggle. */
  lemma ToggleKeepsDistinct(favourites: seq<string>, id: string)
    requires Distinct(favourites)
    ensures Distinct(Toggle(favourites, id))
  {
    if id in favourites {
      FilterKeepsDistinct(favourites, x => x != id);
    }
  }

  predicate Distinct(xs: seq<string>) {
    forall k, l :: 0 <= k < l < |xs| ==> xs[k] != xs[l]
  }

  lemma {:induction false} FilterKeepsDistinct(xs: seq<string>, keep: string -> bool)
    requires Distinct(xs)
    ensures Distinct(Filter(xs, keep))
    decreases |xs|
  {
    if |xs| > 0 {
      FilterKeepsDistinct(xs[1..], keep);
      var rest := Filter(xs[1..], keep);
      if keep(xs[0]) {
        assert xs[0] !in xs[1..];
        var r := [xs[0]] + rest;
        forall k, l | 0 <= k < l < |r| ensures r[k] != r[l] {
          assert r[l] == rest[l - 1] && rest[l - 1] in xs[1..];
          if k > 0 { assert r[k] == rest[k - 1]; }
        }
      }
    }
  }
}
