/** The browsing history kept in the front end's session state (app.py):
    `cat_history`, the list of (product, category) pairs shown in the
    analytics, and `last_tracked`, the product last recorded, so that pressing
    the button again on the same product is not counted twice. */
module Session {
  import opened Options
  import opened Cleaning

  /** One entry of `cat_history`: the product name and its cleaned category. */
  datatype Visit = Visit(product: string, category: string)

  /** A category the tracking rule records: neither empty nor the dash. */
  predicate Recordable(category: string) {
    category != "" && category != Dash
  }

  /** `cat_history` after the tracking rule of lines 295-297 runs for `choice`
      with cleaned category `selCat`, given `last_tracked` = `last`. */
  function Tracked(history: seq<Visit>, last: Option<string>, choice: string, selCat: string): (r: seq<Visit>)
    ensures r == history || r == history + [Visit(choice, selCat)]
    ensures |r| == |history| + 1 <==> last != Some(choice) && Recordable(selCat)
  {
    if last != Some(choice) && Recordable(selCat) then history + [Visit(choice, selCat)] else history
  }

  /** Choosing the same product again, whatever its category, adds nothing:
      after one tracking step `last_tracked` names that product. */
  lemma TrackedRepeatIsIgnored(history: seq<Visit>, last: Option<string>, choice: string, cat1: string, cat2: string)
    ensures Tracked(Tracked(history, last, choice, cat1), Some(choice), choice, cat2)
            == Tracked(history, last, choice, cat1)
  {
  }

  /** The category the front end passes is `clean_category` of the product's
      raw category, which is never empty, so the rule's emptiness test never
      decides anything: a new product is recorded exactly when its category is
      not the dash. */
  lemma TrackedCleanCategory(history: seq<Visit>, last: Option<string>, choice: string, raw: Option<string>)
    ensures var r := Tracked(history, last, choice, CleanCategory(raw));
            r == if last != Some(choice) && CleanCategory(raw) != Dash
                 then history + [Visit(choice, CleanCategory(raw))]
                 else history
  {
  }

  /** Every recorded entry has a category the rule accepts. */
  predicate CleanHistory(history: seq<Visit>) {
    forall k :: 0 <= k < |history| ==> Recordable(history[k].category)
  }

  /** The tracking rule keeps the history free of empty and dash categories. */
  lemma TrackedKeepsHistoryClean(history: seq<Visit>, last: Option<string>, choice: string, selCat: string)
    requires CleanHistory(history)
    ensures CleanHistory(Tracked(history, last, choice, selCat))
  {
  }

  /** The two session-state fields the tracking rule reads and writes. */
  class SessionState {
    var catHistory: seq<Visit>
    var lastTracked: Option<string>

    /** What the session keeps true: recorded categories are all accepted
        ones, and a non-empty history means some product was tracked. */
    ghost predicate Valid()
      reads this
    {
      CleanHistory(catHistory) && (catHistory != [] ==> lastTracked.Some?)
    }

    /** First visit (lines 155-158): empty history, nothing tracked. */
    constructor ()
      ensures Valid()
      ensures catHistory == [] && lastTracked == None
    {
      catHistory := [];
      lastTracked := None;
    }

    /** Lines 295-298: record `(choice, selCat)` only for a product other than
        the last one tracked and only with an accepted category; a new product
        becomes `last_tracked` either way. */
    method Track(choice: string, selCat: string)
      requires Valid()
      modifies this
      ensures Valid()
      ensures catHistory == Tracked(old(catHistory), old(lastTracked), choice, selCat)
      ensures lastTracked == Some(choice)
    {
      if lastTracked != Some(choice) {
        if selCat != "" && selCat != Dash {
          catHistory := catHistory + [Visit(choice, selCat)];
        }
        lastTracked := Some(choice);
      }
      TrackedKeepsHistoryClean(old(catHistory), old(lastTracked), choice, selCat);
    }

    /** The "Clear History" button (lines 174-176). */
    method ClearHistory()
      requires Valid()
      modifies this
      ensures Valid()
      ensures catHistory == [] && lastTracked == None
    {
      catHistory := [];
      lastTracked := None;
    }
  }
}
