/**
 * Binding the job's declared parameter names to the values given on the command line: a count
 * check, then a positional zip into `param_values`.
 */
module Parameters {
  import opened Wrappers
  import opened Values

  /**
   * `{name: value for name, value in zip(names, values)}`: the i-th name bound to the i-th value;
   * when a name repeats, its last position wins, as in a dict comprehension.
   */
  function Zip(names: seq<string>, values: seq<string>): map<string, Value>
    requires |names| == |values|
    decreases |names|
  {
    if |names| == 0 then map[]
    else
      var n := |names| - 1;
      Zip(names[..n], values[..n])[names[n] := Text(values[n])]
  }

  /** Exactly the names are bound. */
  lemma {:induction false} ZipKeys(names: seq<string>, values: seq<string>)
    requires |names| == |values|
    ensures forall k :: k in Zip(names, values) <==> k in names
    decreases |names|
  {
    if |names| > 0 {
      var n := |names| - 1;
      ZipKeys(names[..n], values[..n]);
      assert names == names[..n] + [names[n]];
    }
  }

  /** A name that does not occur after position `i` is bound to the i-th value. */
  lemma {:induction false} ZipLastWins(names: seq<string>, values: seq<string>, i: nat)
    requires |names| == |values| && i < |names|
    requires forall j :: i < j < |names| ==> names[j] != names[i]
    ensures names[i] in Zip(names, values) && Zip(names, values)[names[i]] == Text(values[i])
    decreases |names|
  {
    var n := |names| - 1;
    if i < n {
      var front, vs := names[..n], values[..n];
      assert front[i] == names[i] && vs[i] == values[i];
      assert forall j :: i < j < |front| ==> front[j] == names[j];
      ZipLastWins(front, vs, i);
    }
  }

  /**
   * The parameter map for a job that declares `declared` (absent: no `parameters` key) given the
   * command-line values `supplied`. With parameters declared, a different number of values is an
   * error naming both counts; otherwise every declared name is bound and nothing else. Without
   * declared parameters the map is empty and the supplied values are ignored.
   */
  function BindParams(declared: Option<seq<string>>, supplied: seq<string>): (r: Result<map<string, Value>, Error>)
    ensures declared == None ==> r == Ok(map[])
    ensures declared.Some? && |declared.value| != |supplied| ==>
              r == Err(ParameterCount(|declared.value|, |supplied|))
    ensures declared.Some? && |declared.value| == |supplied| ==>
              r.Ok? && forall k :: k in r.value <==> k in declared.value
    ensures r.Ok? && declared.Some? ==>
              forall i :: 0 <= i < |supplied| && (forall j :: i < j < |supplied| ==> declared.value[j] != declared.value[i]) ==>
                r.value[declared.value[i]] == Text(supplied[i])
  {
    match declared
    case None => Ok(map[])
    case Some(names) =>
      if |names| != |supplied| then Err(ParameterCount(|names|, |supplied|))
      else
        ZipKeys(names, supplied);
        assert forall i :: 0 <= i < |supplied| && (forall j :: i < j < |supplied| ==> names[j] != names[i]) ==>
                 names[i] in Zip(names, supplied) && Zip(names, supplied)[names[i]] == Text(supplied[i]) by {
          forall i | 0 <= i < |supplied| && (forall j :: i < j < |supplied| ==> names[j] != names[i])
            ensures names[i] in Zip(names, supplied) && Zip(names, supplied)[names[i]] == Text(supplied[i])
          {
            ZipLastWins(names, supplied, i);
          }
        }
        Ok(Zip(names, supplied))
  }

  /** With distinct declared names, the parameter map binds the i-th name to exactly the i-th value. */
  lemma {:induction false} DistinctNamesBindPositionally(names: seq<string>, supplied: seq<string>)
    requires |names| == |supplied|
    requires forall i, j :: 0 <= i < j < |names| ==> names[i] != names[j]
    ensures BindParams(Some(names), supplied).Ok?
    ensures forall i :: 0 <= i < |names| ==> BindParams(Some(names), supplied).value[names[i]] == Text(supplied[i])
  {
    var m := BindParams(Some(names), supplied).value;
    forall i | 0 <= i < |names| ensures m[names[i]] == Text(supplied[i]) {
      assert forall j :: i < j < |names| ==> names[j] != names[i];
    }
  }
}
