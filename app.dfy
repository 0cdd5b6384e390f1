/** The `App` component's state and the three operations that change or
    read it: `fetchCat`, `handleAttributeClick` and the chip's membership
    test. */
module CatApp {
  import opened CatData
  import opened BanPredicate
  import opened BanList
  import opened Discovery

  /** The error message kinds the screen shows. */
  datatype UiError =
    | FetchFailed(cause: Cause)  // "Failed to fetch cat: ..."
    | Exhausted                  // "Could not find an unbanned cat after multiple attempts. ..."

  class App {
    var currentCat: Option<Cat>
    var banList: seq<BanRule>
    var isLoading: bool
    var error: Option<UiError>

    /** The clean state the screen's ban list keeps: no pair twice. */
    ghost predicate Valid()
      reads this
    {
      NoDuplicates(banList)
    }

    /** The state the component mounts with. */
    constructor ()
      ensures currentCat == None && banList == [] && !isLoading && error == None
      ensures Valid()
    {
      currentCat := None;
      banList := [];
      isLoading := false;
      error := None;
    }

    /** Whether the displayed state is the one a run with ending `e` leaves:
        the found cat and no error; or no cat and the matching error. */
    ghost predicate Shows(e: Ending)
      reads this
    {
      match e
      case Found(c) => currentCat == Some(c) && error == None
      case Failed(cause) => currentCat == None && error == Some(FetchFailed(cause))
      case GaveUp => currentCat == None && error == Some(Exhausted)
    }

    /** `fetchCat()`: request batches until one holds an unbanned cat, a
        request fails, or the retries are used up. `responses[n]` is what the
        request with retry number `n` receives; the ban list is the one in
        force when the call starts. Returns the number of requests made. */
    method FetchCat(responses: seq<Outcome>) returns (attempts: nat)
      requires MaxRetries < |responses|
      modifies this
      ensures banList == old(banList)
      ensures !isLoading
      ensures attempts == FetchRun(old(banList), responses).attempts
      ensures Shows(FetchRun(old(banList), responses).ending)
      ensures currentCat.Some? != error.Some?
    {
      var bans := banList;
      ghost var steps := Steps(bans, responses);
      var retries := 0;
      attempts := 0;
      while true
        invariant retries <= MaxRetries
        invariant attempts == retries && banList == bans
        invariant RunFrom(steps, 0).attempts == retries + RunFrom(steps, retries).attempts
        invariant RunFrom(steps, 0).ending == RunFrom(steps, retries).ending
        decreases MaxRetries - retries
      {
        isLoading := true;
        error := None;
        attempts := attempts + 1;
        var step := Attempt(bans, responses[retries]);
        match step {
          case Picked(c) =>
            currentCat := Some(c);
            break;
          case Broke(cause) =>
            error := Some(FetchFailed(cause));
            currentCat := None;
            break;
          case NoneUnbanned =>
            if retries < MaxRetries {
              retries := retries + 1;
            } else {
              error := Some(Exhausted);
              currentCat := None;
              break;
            }
        }
      }
      isLoading := false;
    }

    /** `handleAttributeClick(type, value)`: toggle the pair in the ban list. */
    method HandleAttributeClick(kind: AttrType, value: string)
      modifies this
      ensures banList == Toggle(old(banList), kind, value)
      ensures currentCat == old(currentCat) && isLoading == old(isLoading) && error == old(error)
      ensures IsChipBanned(kind, value) == !old(IsChipBanned(kind, value))
      ensures old(Valid()) ==> Valid()
    {
      if Valid() {
        ToggleNoDuplicates(banList, kind, value);
      }
      banList := Toggle(banList, kind, value);
    }

    /** The chip's highlight test: some entry equals the pair. */
    predicate IsChipBanned(kind: AttrType, value: string)
      reads this
    {
      BanRule(kind, value) in banList
    }

    /** `renderClickableAttribute`: no chip for an absent or empty value;
        otherwise whether the chip is shown as banned. */
    function ChipState(kind: AttrType, value: Option<string>): (r: Option<bool>)
      reads this
      ensures r.None? <==> value.None? || value.value == ""
      ensures r.Some? ==> (r.value <==> IsChipBanned(kind, value.value))
    {
      if value.None? || value.value == "" then None
      else Some(IsChipBanned(kind, value.value))
    }
  }
}
