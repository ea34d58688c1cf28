/**
 * Picking the discharge variable of the decoded dataset (`choose_variable`):
 * the first name of a fixed priority list that the dataset declares, else the
 * first variable the dataset declares, with a fallback flag standing for the
 * warning `choose_variable` logs. With no variable at all `list(ds.data_vars)[0]` raises.
 */
module VariableSelector {
  import opened Wrappers

  /** The preferred variable names, most preferred first. */
  const CANDIDATES: seq<string> := ["river_discharge_in_the_last_24_hours", "dis24", "dis"]

  datatype Choice = Choice(name: string, fallback: bool)

  /** `list(ds.data_vars)[0]` on an empty dataset raises. */
  datatype SelectError = NoVariables

  /** `cands[k]` is declared and no earlier candidate is. */
  predicate FirstPresentAt(cands: seq<string>, dataVars: seq<string>, k: int)
  {
    && 0 <= k < |cands|
    && cands[k] in dataVars
    && forall k' :: 0 <= k' < k ==> cands[k'] !in dataVars
  }

  predicate NonePresent(cands: seq<string>, dataVars: seq<string>)
  {
    forall k :: 0 <= k < |cands| ==> cands[k] !in dataVars
  }

  /** The candidate loop with its early return. */
  function FirstPresent(cands: seq<string>, dataVars: seq<string>): (r: Option<string>)
    ensures r.None? <==> NonePresent(cands, dataVars)
    ensures r.Some? ==> exists k :: FirstPresentAt(cands, dataVars, k) && r.value == cands[k]
  {
    if cands == [] then None
    else if cands[0] in dataVars then
      assert FirstPresentAt(cands, dataVars, 0);
      Some(cands[0])
    else
      var rest := FirstPresent(cands[1..], dataVars);
      if rest.Some? then
        var k :| FirstPresentAt(cands[1..], dataVars, k) && rest.value == cands[1..][k];
        assert FirstPresentAt(cands, dataVars, k + 1);
        rest
      else
        assert forall k :: 1 <= k < |cands| ==> cands[k] == cands[1..][k - 1];
        rest
  }

  function ChooseVariable(dataVars: seq<string>): (r: Result<Choice, SelectError>)
    ensures r.Err? <==> dataVars == []
    ensures r.Ok? ==> r.value.name in dataVars
    ensures r.Ok? ==> (r.value.fallback <==> NonePresent(CANDIDATES, dataVars))
    ensures r.Ok? && r.value.fallback ==> r.value.name == dataVars[0]
    ensures forall k :: FirstPresentAt(CANDIDATES, dataVars, k) ==> r == Ok(Choice(CANDIDATES[k], false))
  {
    match FirstPresent(CANDIDATES, dataVars)
    case Some(name) => Ok(Choice(name, false))
    case None => if dataVars == [] then Err(NoVariables) else Ok(Choice(dataVars[0], true))
  }
}
