/**
 * A mutable table from variable names to truth values. Every operation that
 * the table refuses reports an error instead of throwing, and leaves the table
 * as it was.
 */
module Truth {

  /** Why an operation on the table was refused. */
  datatype Error =
    | DifferentSizes  // names and values differ in length
    | DuplicateNames  // a name appears twice among the constructor's names
    | NotAKey         // the name looked up or set is not in the table
    | DuplicateKey    // the name added is already in the table

  datatype Result<T> = Success(value: T) | Failure(error: Error)

  /** The outcome of an operation that returns nothing when it succeeds. */
  datatype Outcome = Done | Refused(error: Error)

  /** No name occurs twice in names. */
  predicate Distinct(names: seq<string>) {
    forall a, b :: 0 <= a < b < |names| ==> names[a] != names[b]
  }

  /** The names of names, as a set. */
  function NameSet(names: seq<string>): (s: set<string>)
    ensures forall k :: 0 <= k < |names| ==> names[k] in s
    ensures forall n :: n in s ==> exists k :: 0 <= k < |names| && names[k] == n
  {
    set k | 0 <= k < |names| :: names[k]
  }

  class TruthAssignment {
    /** The value of each name in the table. */
    var data: map<string, bool>

    /** The empty table. */
    constructor Empty()
      ensures data == map[]
    {
      data := map[];
    }

    /**
     * Builds the table for names[k] |-> values[k]: fails when the two differ
     * in length, or at the first name that is already in the table.
     */
    static method Create(names: seq<string>, values: seq<bool>) returns (r: Result<TruthAssignment>)
      ensures |names| != |values| ==> r == Failure(DifferentSizes)
      ensures |names| == |values| && !Distinct(names) ==> r == Failure(DuplicateNames)
      ensures |names| == |values| && Distinct(names) ==> r.Success? && fresh(r.value)
      ensures r.Success? ==> r.value.data.Keys == NameSet(names)
      ensures r.Success? ==> forall k :: 0 <= k < |names| ==> r.value.data[names[k]] == values[k]
    {
      var table := new TruthAssignment.Empty();

      if |names| != |values| {
        return Failure(DifferentSizes);
      }

      for i := 0 to |names|
        invariant table.data.Keys == NameSet(names[..i])
        invariant forall k :: 0 <= k < i ==> table.data[names[k]] == values[k]
        invariant Distinct(names[..i])
      {
        if names[i] in table.data {
          assert names[..i + 1][i] == names[i];
          return Failure(DuplicateNames);
        }
        table.data := table.data[names[i] := values[i]];
        assert names[..i + 1] == names[..i] + [names[i]];
      }
      assert names[..|names|] == names;
      r := Success(table);
    }

    /** The value of name; refused when name is not in the table. */
    method GetValue(name: string) returns (r: Result<bool>)
      ensures name in data ==> r == Success(data[name])
      ensures name !in data ==> r == Failure(NotAKey)
    {
      if name !in data {
        return Failure(NotAKey);
      }
      r := Success(data[name]);
    }

    /** Gives name, which must already be in the table, the value value. */
    method SetValue(name: string, value: bool) returns (outcome: Outcome)
      modifies this
      ensures old(name in data) ==> outcome == Done && data == old(data)[name := value]
      ensures old(name !in data) ==> outcome == Refused(NotAKey) && data == old(data)
      ensures data.Keys == old(data.Keys)
    {
      if name !in data {
        return Refused(NotAKey);
      }
      data := data[name := value];
      outcome := Done;
    }

    /** Adds name, which must not be in the table yet, with the value value. */
    method AddValue(name: string, value: bool) returns (outcome: Outcome)
      modifies this
      ensures old(name !in data) ==> outcome == Done && data == old(data)[name := value]
      ensures old(name in data) ==> outcome == Refused(DuplicateKey) && data == old(data)
      ensures old(data.Keys) <= data.Keys
      ensures forall n :: n in old(data) ==> n in data && data[n] == old(data[n])
    {
      if name in data {
        return Refused(DuplicateKey);
      }
      data := data[name := value];
      outcome := Done;
    }
  }
}
