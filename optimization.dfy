/** The time-slot optimizer: it stores a preference matrix and a block length k,
    rebuilds the 0/1 program of module TimeSlots from them after every change,
    and reads a solver's answer back as the list of selected slots. */
module Optimization {
  import opened TimeSlots

  datatype Option<T> = None | Some(value: T)

  /** What the external 0/1 solver reports: the value of every slot variable and
      the objective value when it proved optimality, nothing otherwise. */
  datatype SolverOutcome = Optimal(y: seq<real>, objVal: real) | NotOptimal

  datatype OptimizationResult =
    | Solution(selectedSlots: seq<nat>, totalScore: real)
    | NoSolution  // "No optimal solution found."

  datatype EditOutcome = Edited | IndexError

  /** Python list indexing: 0 .. len-1 counts from the front, -len .. -1 from
      the back, and any other index raises IndexError. */
  function PyIndex(i: int, len: nat): (r: Option<nat>)
    ensures r.Some? <==> -(len as int) <= i < len
    ensures r.Some? ==> r.value < len && (r.value - i) % len == 0
  {
    if 0 <= i < len then Some(i)
    else if -(len as int) <= i < 0 then Some(len + i)
    else None
  }

  class TimeSlotOptimizer {
    var k: nat
    var matrix: Matrix
    // derived by BuildNewModel and BuildModel
    var numPeople: nat
    var numTimeSlots: nat
    var coverageWeight: real
    var preferenceWeight: real
    var objective: seq<real>         // coefficient of y[j] in the maximised objective
    var maxStart: int                // number of start variables asked for
    var constraints: seq<Constraint>

    /** The stored matrix and k, before the program is derived from them. */
    ghost predicate Stored()
      reads this
    {
      k >= 1 && WellShaped(matrix)
    }

    /** The derived program is the one the stored matrix and k determine. */
    ghost predicate Valid()
      reads this
    {
      && Stored()
      && numPeople == |matrix| && numTimeSlots == |matrix[0]|
      && coverageWeight == CoverageWeight(numPeople)
      && preferenceWeight == PreferenceWeight(numPeople)
      && |objective| == numTimeSlots
      && (forall j :: 0 <= j < numTimeSlots ==> objective[j] == Score(matrix, j))
      && maxStart == numTimeSlots - k + 1
      && constraints == ModelConstraints(numTimeSlots, k)
    }

    constructor (preferenceMatrix: Matrix)
      requires WellShaped(preferenceMatrix)
      ensures Valid()
      ensures k == 1 && matrix == preferenceMatrix
    {
      k := 1;
      matrix := preferenceMatrix;
      new;
      BuildNewModel();
    }

    /** Reads the dimensions and the two weights off the matrix, then builds the program. */
    method BuildNewModel()
      requires Stored()
      modifies this
      ensures Valid()
      ensures k == old(k) && matrix == old(matrix)
    {
      numPeople := |matrix|;
      numTimeSlots := |matrix[0]|;
      coverageWeight := 1.0 - 1.0 / (numPeople as real);
      preferenceWeight := 1.0 / (numPeople as real);
      BuildModel();
    }

    /** Builds the program: the objective, then the constraints. */
    method BuildModel()
      requires Stored() && numPeople == |matrix| && numTimeSlots == |matrix[0]|
      requires coverageWeight == CoverageWeight(numPeople) && preferenceWeight == PreferenceWeight(numPeople)
      modifies this`objective, this`maxStart, this`constraints
      ensures Valid()
    {
      BuildObjective();
      BuildConstraints();
    }

    /** Computes the objective coefficient of every slot: the coverage weight
        times the number of people with a positive entry, plus the preference
        weight times the sum of the entries. */
    method BuildObjective()
      requires Stored() && numPeople == |matrix| && numTimeSlots == |matrix[0]|
      requires coverageWeight == CoverageWeight(numPeople) && preferenceWeight == PreferenceWeight(numPeople)
      modifies this`objective
      ensures |objective| == numTimeSlots
      ensures forall j :: 0 <= j < numTimeSlots ==> objective[j] == Score(matrix, j)
    {
      var obj: seq<real> := [];
      for j := 0 to numTimeSlots
        invariant |obj| == j
        invariant forall j' :: 0 <= j' < j ==> obj[j'] == Score(matrix, j')
      {
        var numAttending: nat := 0;
        var preferenceScore: real := 0.0;
        for i := 0 to numPeople
          invariant numAttending == Attending(matrix, j, i)
          invariant preferenceScore == PrefSum(matrix, j, i)
        {
          var availability := matrix[i][j];
          if availability > 0.0 {
            numAttending := numAttending + 1;
          }
          preferenceScore := preferenceScore + availability;
        }
        var totalScore := coverageWeight * (numAttending as real) + preferenceWeight * preferenceScore;
        obj := obj + [totalScore];
      }
      objective := obj;
    }

    /** Asks for one start variable per block position, requires exactly one
        of them, and links every slot to the starts whose block holds it (or
        forces the slot to 0 when no start holds it). */
    method BuildConstraints()
      requires Stored() && numTimeSlots == |matrix[0]|
      modifies this`maxStart, this`constraints
      ensures maxStart == numTimeSlots - k + 1
      ensures constraints == ModelConstraints(numTimeSlots, k)
    {
      maxStart := numTimeSlots - k + 1;
      var cs := [ChooseStart(maxStart)];
      for j := 0 to numTimeSlots
        invariant cs == [ChooseStart(maxStart)] + SlotConstraints(numTimeSlots, k, j)
      {
        var relevantStarts: seq<nat> := [];
        var start: nat := 0;
        while start < maxStart
          invariant start <= StartCount(numTimeSlots, k)
          invariant relevantStarts == CoveringStarts(j, k, start)
        {
          if start <= j < start + k {
            relevantStarts := relevantStarts + [start];
          }
          start := start + 1;
        }
        if relevantStarts != [] {
          cs := cs + [Link(j, relevantStarts)];
        } else {
          cs := cs + [ZeroOut(j)];
        }
      }
      constraints := cs;
    }

    /** Splits every slot into two equal halves: each column is duplicated in
        place, k doubles, and the program is rebuilt. */
    method SplitMatrix()
      requires Valid()
      modifies this
      ensures Valid()
      ensures matrix == Split(old(matrix))
      ensures k == 2 * old(k)
      ensures numPeople == old(numPeople) && numTimeSlots == 2 * old(numTimeSlots)
      ensures forall i, p :: 0 <= i < numPeople && 0 <= p < numTimeSlots ==> matrix[i][p] == old(matrix)[i][p / 2]
      ensures old(k) <= old(numTimeSlots) ==> k <= numTimeSlots
    {
      var splittedMatrix: Matrix := [];
      for r := 0 to |matrix|
        invariant splittedMatrix == Split(matrix[..r])
      {
        var row := matrix[r];
        var splittedRow: seq<real> := [];
        for e := 0 to |row|
          invariant splittedRow == SplitRow(row[..e])
        {
          var element := row[e];
          splittedRow := splittedRow + [element];
          splittedRow := splittedRow + [element];
          assert row[..e + 1][..e] == row[..e];
        }
        assert row[..|row|] == row;
        splittedMatrix := splittedMatrix + [splittedRow];
        assert matrix[..r + 1][..r] == matrix[..r];
      }
      assert matrix[..|matrix|] == matrix;
      SplitShape(matrix);
      SplitCells(matrix);
      k := k * 2;
      matrix := splittedMatrix;
      BuildNewModel();
    }

    /** Overwrites one preference value and rebuilds the program; an index out of
        range leaves everything as it was. */
    method ChangeEntryMatrix(row: int, slot: int, preference: real) returns (outcome: EditOutcome)
      requires Valid()
      modifies this
      ensures Valid() && k == old(k)
      ensures outcome == Edited <==> PyIndex(row, old(numPeople)).Some? && PyIndex(slot, old(numTimeSlots)).Some?
      ensures outcome == IndexError ==> unchanged(this)
      ensures outcome == Edited ==>
        var r, c := PyIndex(row, old(numPeople)).value, PyIndex(slot, old(numTimeSlots)).value;
        && matrix == SetEntry(old(matrix), r, c, preference)
        && numPeople == old(numPeople) && numTimeSlots == old(numTimeSlots)
        && matrix[r][c] == preference
        && (forall i, j :: 0 <= i < numPeople && 0 <= j < numTimeSlots && (i, j) != (r, c) ==>
              matrix[i][j] == old(matrix)[i][j])
    {
      var r := PyIndex(row, |matrix|);
      if r.None? {
        return IndexError;
      }
      var c := PyIndex(slot, |matrix[r.value]|);
      if c.None? {
        return IndexError;
      }
      ChangeEntryOtherSlots(matrix, r.value, c.value, preference);
      matrix := matrix[r.value := matrix[r.value][c.value := preference]];
      BuildNewModel();
      outcome := Edited;
    }

    /** Reads the solver's answer: the slots whose variable exceeds 0.5, in
        increasing order, with the objective value; or no solution. An optimal
        answer is the 0/1 solution the solver proved optimal for this program,
        reported as reals. */
    method Optimize(outcome: SolverOutcome) returns (result: OptimizationResult)
      requires Valid()
      requires outcome.Optimal? ==> |outcome.y| == numTimeSlots
      requires outcome.Optimal? ==> ReportsOptimum(objective, numTimeSlots, k, outcome.y, outcome.objVal)
      ensures outcome.NotOptimal? <==> result == NoSolution
      ensures outcome.Optimal? ==>
        && result.Solution?
        && result.totalScore == outcome.objVal
        && result.selectedSlots == SlotsAbove(outcome.y, numTimeSlots)
        && StrictlyIncreasing(result.selectedSlots)
        && (forall j :: j in result.selectedSlots <==> 0 <= j < numTimeSlots && outcome.y[j] > 0.5)
      ensures k > numTimeSlots ==> result == NoSolution
      ensures result.Solution? ==> exists i: nat :: i + k <= numTimeSlots && WithinBlock(result.selectedSlots, i, k)
      ensures result.Solution? ==>
        forall i: nat :: i + k <= numTimeSlots ==> BlockScore(objective, i, k) <= result.totalScore
      ensures result.Solution? && (forall j :: 0 <= j < numTimeSlots ==> objective[j] > 0.0) ==>
        |result.selectedSlots| == k
    {
      match outcome
      case NotOptimal =>
        result := NoSolution;
      case Optimal(y, objVal) =>
        ReportedOptimum(objective, numTimeSlots, k, y, objVal);
        result := Solution(SlotsAbove(y, numTimeSlots), objVal);
    }
  }

  /** Splitting twice multiplies k and the number of slots by four and repeats
      every original column four times. */
  method SplitMatrixTwice(o: TimeSlotOptimizer)
    requires o.Valid()
    modifies o
    ensures o.Valid()
    ensures o.k == 4 * old(o.k) && o.numPeople == old(o.numPeople) && o.numTimeSlots == 4 * old(o.numTimeSlots)
    ensures forall i, p :: 0 <= i < o.numPeople && 0 <= p < o.numTimeSlots ==> o.matrix[i][p] == old(o.matrix)[i][p / 4]
  {
    o.SplitMatrix();
    o.SplitMatrix();
    SplitTwice(old(o.matrix));
  }
}
