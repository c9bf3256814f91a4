/** The state of the locations page (`Home`) and its event handlers. Each
    React state hook is a field; each handler updates the fields its setters
    name and no others. */
module Page {
  import opened Wrappers
  import opened Schedules
  import opened Filters

  class HomePage {
    /** Every location the data source delivered. */
    var locations: seq<Location>
    /** The locations the page lists and counts. */
    var visibleLocations: seq<Location>
    /** The chosen radio button's value; `None` is `null`. */
    var selectedPeriod: Option<string>
    /** The "show closed units" checkbox. */
    var showClosedUnits: bool
    /** True until the load attempt has finished. */
    var isLoading: bool

    /** The page only ever lists loaded locations, in their loaded order. */
    ghost predicate Valid()
      reads this
    {
      IsSubsequence(visibleLocations, locations)
    }

    /** The initial state of the hooks. */
    constructor()
      ensures Valid()
      ensures locations == [] && visibleLocations == []
      ensures selectedPeriod == None && !showClosedUnits && isLoading
    {
      locations := [];
      visibleLocations := [];
      selectedPeriod := None;
      showClosedUnits := false;
      isLoading := true;
      SubsequenceOfItself<Location>([]);
    }

    /** The end of `fetchLocations`: `fetched` is the decoded `locations`
        array, or `None` when the request or decoding failed. On success all
        locations are kept and only the opened ones are listed; on failure
        the lists stay as they were. Loading ends either way. */
    method FinishLoad(fetched: Option<seq<Location>>)
      requires Valid()
      modifies this
      ensures Valid()
      ensures fetched.Some? ==> locations == fetched.value && visibleLocations == Filter(fetched.value, IsOpened)
      ensures fetched.None? ==> locations == old(locations) && visibleLocations == old(visibleLocations)
      ensures selectedPeriod == old(selectedPeriod) && showClosedUnits == old(showClosedUnits)
      ensures !isLoading
    {
      if fetched.Some? {
        var filtered := Filter(fetched.value, IsOpened);
        FilterIsSubsequence(fetched.value, IsOpened);
        locations := fetched.value;
        visibleLocations := filtered;
      }
      isLoading := false;
    }

    /** `handlePeriodChange`: the chosen radio value becomes the selection. */
    method HandlePeriodChange(value: string)
      requires Valid()
      modifies this
      ensures Valid()
      ensures selectedPeriod == Some(value)
      ensures locations == old(locations) && visibleLocations == old(visibleLocations)
      ensures showClosedUnits == old(showClosedUnits) && isLoading == old(isLoading)
    {
      selectedPeriod := Some(value);
    }

    /** `handleCheckboxChange`: the checkbox state becomes the toggle. */
    method HandleCheckboxChange(checked: bool)
      requires Valid()
      modifies this
      ensures Valid()
      ensures showClosedUnits == checked
      ensures locations == old(locations) && visibleLocations == old(visibleLocations)
      ensures selectedPeriod == old(selectedPeriod) && isLoading == old(isLoading)
    {
      showClosedUnits := checked;
    }

    /** `applyFilter`: narrow the loaded list by the selected period, if one is
        selected, then drop the closed units unless they are to be shown. The
        result is exactly the admitted locations in loaded order. */
    method ApplyFilter()
      requires Valid()
      modifies this
      ensures Valid()
      ensures visibleLocations == VisibleFor(locations, selectedPeriod, showClosedUnits)
      ensures locations == old(locations)
      ensures selectedPeriod == old(selectedPeriod) && showClosedUnits == old(showClosedUnits)
      ensures isLoading == old(isLoading)
    {
      var filtered := locations;
      if PeriodSelected(selectedPeriod) {
        filtered := Filter(filtered, InPeriod(selectedPeriod.value));
      }
      if !showClosedUnits {
        filtered := Filter(filtered, IsOpened);
      }
      TwoStages(locations, selectedPeriod, showClosedUnits);
      VisibleIsSubsequence(locations, selectedPeriod, showClosedUnits);
      visibleLocations := filtered;
    }

    /** `handleClearFilter`: forget the period, turn the toggle off and list
        every loaded location, closed units included. */
    method HandleClearFilter()
      requires Valid()
      modifies this
      ensures Valid()
      ensures selectedPeriod == None && !showClosedUnits
      ensures visibleLocations == locations
      ensures locations == old(locations) && isLoading == old(isLoading)
    {
      selectedPeriod := None;
      showClosedUnits := false;
      visibleLocations := locations;
      SubsequenceOfItself(locations);
    }
  }

  /** What the page lists right after a successful load is what `applyFilter`
      lists with no period and the toggle off. */
  lemma LoadedViewIsDefaultFilter(all: seq<Location>)
    ensures Filter(all, IsOpened) == VisibleFor(all, None, false)
  {
    FilterCongruent(all, IsOpened, loc => Admits(None, false, loc));
  }

  /** Clearing lists every loaded location although it turns the toggle off,
      so it agrees with the freshly loaded list, and with applying the cleared
      filter, exactly when every location is opened. */
  lemma ClearMatchesLoadIffAllOpened(all: seq<Location>)
    ensures all == VisibleFor(all, None, false) <==> forall i :: 0 <= i < |all| ==> IsOpened(all[i])
  {
    LoadedViewIsDefaultFilter(all);
    FilterKeepsAll(all, IsOpened);
  }

  /** Load, clear, then apply: the clear lists every location, including the
      closed ones that the load hid, and applying the cleared filter hides
      them again. */
  method LoadClearApply(fetched: seq<Location>) returns (afterLoad: seq<Location>, afterClear: seq<Location>, afterApply: seq<Location>)
    ensures afterLoad == Filter(fetched, IsOpened)
    ensures afterClear == fetched
    ensures afterApply == afterLoad
  {
    var page := new HomePage();
    page.FinishLoad(Some(fetched));
    afterLoad := page.visibleLocations;
    page.HandleClearFilter();
    afterClear := page.visibleLocations;
    page.ApplyFilter();
    afterApply := page.visibleLocations;
    LoadedViewIsDefaultFilter(fetched);
  }
}
