/** Extremes and counts over a sequence: what they are, and how they extend and merge. */
module Scan {
  import opened Wrappers
  import opened Numbers

  // ---------- The least of zero and the readings ----------

  /** `worst` is the least of zero and the readings that are present. */
  ghost predicate IsWorst(worst: int, readings: seq<Option<int>>) {
    && worst <= 0
    && (worst == 0 || Some(worst) in readings)
    && forall r <- readings :: r.Some? ==> worst <= r.value
  }

  lemma WorstUnique(readings: seq<Option<int>>, worst: int, other: int)
    requires IsWorst(worst, readings) && IsWorst(other, readings)
    ensures worst == other
  {
    assert worst != 0 ==> other <= Some(worst).value;
    assert other != 0 ==> worst <= Some(other).value;
  }

  /** A running worst return after one more reading. */
  function Worse(worst: int, reading: Option<int>): int {
    if reading.Some? then Min(worst, reading.value) else worst
  }

  lemma WorstExtends(readings: seq<Option<int>>, r: Option<int>, worst: int)
    requires IsWorst(worst, readings)
    ensures IsWorst(Worse(worst, r), readings + [r])
  {
  }

  /** Readings that start with blanks have the worst return of the rest. */
  lemma WorstMerges(left: seq<Option<int>>, blank: seq<Option<int>>, more: seq<Option<int>>, a: int, b: int, whole: int)
    requires IsWorst(a, left) && IsWorst(b, blank + more) && IsWorst(whole, left + more)
    requires forall r <- blank :: r == None
    ensures whole == Min(a, b)
  {
    assert forall r <- more :: r in blank + more;
    assert IsWorst(b, more);
    assert IsWorst(Min(a, b), left + more);
    WorstUnique(left + more, whole, Min(a, b));
  }

  // ---------- Counts ----------

  /** The positions of the flags that are set. */
  ghost function Positions(flags: seq<bool>): set<nat> {
    set i: nat | i < |flags| && flags[i]
  }

  /** The number of flags that are set. */
  ghost function Count(flags: seq<bool>): nat {
    |Positions(flags)|
  }

  lemma CountExtends(flags: seq<bool>, flag: bool)
    ensures Count(flags + [flag]) == Count(flags) + (if flag then 1 else 0)
  {
    assert Positions(flags + [flag]) == Positions(flags) + (if flag then {|flags|} else {});
  }

  lemma {:induction false} CountOfConcat(left: seq<bool>, right: seq<bool>)
    ensures Count(left + right) == Count(left) + Count(right)
  {
    if right == [] {
      assert left + right == left;
    } else {
      var most, last := right[..|right| - 1], right[|right| - 1];
      CountOfConcat(left, most);
      CountExtends(left + most, last);
      CountExtends(most, last);
      assert right == most + [last];
      assert left + right == left + most + [last];
    }
  }

  /** Flags that start with blanks have the count of the rest. */
  lemma CountMerges(left: seq<bool>, blank: seq<bool>, more: seq<bool>)
    requires forall i | 0 <= i < |blank| :: !blank[i]
    ensures Count(left + more) == Count(left) + Count(blank + more)
  {
    CountOfConcat(left, more);
    CountOfConcat(blank, more);
    assert Positions(blank) == {};
  }

  /** A count is positive exactly when some flag is set. */
  lemma CountPositive(flags: seq<bool>) returns (i: nat)
    ensures 0 < Count(flags) ==> i < |flags| && flags[i]
    ensures forall j | 0 <= j < |flags| && flags[j] :: 0 < Count(flags)
  {
    i := 0;
    if Positions(flags) != {} {
      i :| i in Positions(flags);
    }
    forall j: nat | j < |flags| && flags[j]
      ensures 0 < Count(flags)
    {
      assert j in Positions(flags);
    }
  }

  // ---------- The greatest of zero and the values ----------

  /** `longest` is the greatest of zero and the values. */
  ghost predicate IsLongest(longest: real, values: seq<real>) {
    && 0.0 <= longest
    && (longest == 0.0 || longest in values)
    && forall v <- values :: v <= longest
  }

  lemma LongestUnique(values: seq<real>, longest: real, other: real)
    requires IsLongest(longest, values) && IsLongest(other, values)
    ensures longest == other
  {
  }

  lemma LongestExtends(values: seq<real>, v: real, longest: real)
    requires IsLongest(longest, values)
    ensures IsLongest(MaxReal(longest, v), values + [v])
  {
  }

  lemma LongestMerges(left: seq<real>, more: seq<real>, a: real, b: real, whole: real)
    requires IsLongest(a, left) && IsLongest(b, [0.0] + more) && IsLongest(whole, left + more)
    ensures whole == MaxReal(a, b)
  {
    assert forall v <- more :: v in [0.0] + more;
    assert IsLongest(b, more);
    assert IsLongest(MaxReal(a, b), left + more);
    LongestUnique(left + more, whole, MaxReal(a, b));
  }
}
