/** The growable arrays the overlay loader appends to (genl-overlay.c): every append checks
    `count == capacity`, where the loader seeds the capacity anew for each file. */
module Growth {

  /** `capacity` is what the loader believes, `slots` what the last realloc really provided, and `fits`
      says whether every append so far was written to a slot that exists. */
  datatype Room = Room(count: nat, capacity: nat, slots: nat, fits: bool)

  const EMPTY := Room(0, 0, 0, true)

  /** The check in front of an append: double, from `start`, when the array looks full. */
  function Checked(r: Room, start: nat): Room {
    if r.count != r.capacity then r
    else
      var bigger := if r.capacity != 0 then r.capacity * 2 else start;
      r.(capacity := bigger, slots := bigger)
  }

  function Append(r: Room, start: nat): Room {
    var c := Checked(r, start);
    c.(count := c.count + 1, fits := c.fits && c.count < c.slots)
  }

  function Appends(r: Room, start: nat, n: nat): Room
    decreases n
  {
    if n == 0 then r else Append(Appends(r, start, n - 1), start)
  }

  lemma {:induction false} AppendsMore(r: Room, start: nat, m: nat, n: nat)
    ensures Appends(Appends(r, start, m), start, n) == Appends(r, start, m + n)
    decreases n
  {
    if n > 0 { AppendsMore(r, start, m, n - 1); }
  }

  /** An array whose capacity covers its count never overruns; one whose capacity is behind never grows. */
  lemma {:induction false} FitIff(r: Room, start: nat, n: nat)
    requires start > 0 && r.count <= r.slots && r.capacity <= r.slots
    ensures var a := Appends(r, start, n);
      && a.count == r.count + n && a.capacity <= a.slots
      && (r.count <= r.capacity ==> a.count <= a.capacity)
      && (r.count > r.capacity ==> a.capacity == r.capacity && a.slots == r.slots)
      && (a.fits <==> r.fits && (r.count <= r.capacity || r.count + n <= r.slots))
    decreases n
  {
    if n > 0 { FitIff(r, start, n - 1); }
  }

  /** Every append so far had a slot, and so will every later one. */
  predicate Sound(r: Room) {
    r.count <= r.capacity <= r.slots && r.fits
  }

  lemma AppendSound(r: Room, start: nat)
    requires start > 0 && Sound(r)
    ensures Sound(Append(r, start))
  {
  }

  /** load_one_file resumes operations and groups at their count; the capacity of the attribute sets
      starts at 0 again. */
  function Resumed(r: Room): Room { r.(capacity := r.count) }
  function Forgotten(r: Room): Room { r.(capacity := 0) }

  // ---------------------------------------------------------------------------------------------
  // The array of attribute sets

  const SETS_START: nat := 16

  /** The slots allocated for `n` sets of a first file. */
  function Slots(n: nat): nat { Appends(EMPTY, SETS_START, n).slots }

  function Doubled(j: nat): nat { if j == 0 then SETS_START else 2 * Doubled(j - 1) }

  lemma {:induction false} DoubledGrows(i: nat, j: nat)
    requires i <= j
    ensures Doubled(i) <= Doubled(j)
    decreases j
  {
    if i < j { DoubledGrows(i, j - 1); }
  }

  lemma {:induction false} FirstFile(n: nat) returns (j: nat)
    requires n > 0
    ensures var a := Appends(EMPTY, SETS_START, n);
      a == Room(n, Doubled(j), Doubled(j), true) && n <= Doubled(j) && (j > 0 ==> Doubled(j - 1) < n)
  {
    if n == 1 {
      j := 0;
      assert Appends(EMPTY, SETS_START, 0) == EMPTY;
    } else {
      j := FirstFile(n - 1);
      if n - 1 == Doubled(j) { j := j + 1; }
    }
  }

  /** The slots are the least 16, 32, 64, … that hold the sets. */
  lemma SlotsAreLeast(n: nat)
    requires n > 0
    ensures n <= Slots(n) && (exists j: nat :: Slots(n) == Doubled(j))
    ensures forall j: nat :: n <= Doubled(j) ==> Slots(n) <= Doubled(j)
  {
    var k := FirstFile(n);
    forall j: nat | n <= Doubled(j) ensures Slots(n) <= Doubled(j) {
      if j < k { DoubledGrows(j, k - 1); } else { DoubledGrows(k, j); }
    }
  }

  /** `n` sets in the first file and `m` in the second are all written to slots that exist if and only if
      there were none in the first or the slack of its array takes the others. */
  lemma SecondFile(n: nat, m: nat)
    ensures Appends(Forgotten(Appends(EMPTY, SETS_START, n)), SETS_START, m).fits
            <==> n == 0 || n + m <= Slots(n)
  {
    var first := Appends(EMPTY, SETS_START, n);
    if n > 0 { var j := FirstFile(n); }
    FitIff(Forgotten(first), SETS_START, m);
  }

  /** Sixteen sets in the first file and one in the second: the write has no slot. */
  lemma SeventeenthSet()
    ensures !Appends(Forgotten(Appends(EMPTY, SETS_START, 16)), SETS_START, 1).fits
  {
    hide Appends;
    SecondFile(16, 1);
    SlotsAreLeast(16);
    assert Doubled(0) == 16;
  }
}
