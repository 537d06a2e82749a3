/** The bucket counts a hash table may have, and how many entries each admits. */
module HashSizes {

  /** Table sizes are indexed from 0 to 44 on a 64-bit machine. */
  const NUM_SIZES: int := 45

  function TableSize(idx: nat): (size: nat)
    requires idx < NUM_SIZES
  {
    match idx
    case 0 => 0 case 1 => 3 case 2 => 7 case 3 => 13
    case 4 => 23 case 5 => 41 case 6 => 71 case 7 => 127
    case 8 => 191 case 9 => 251 case 10 => 383 case 11 => 631
    case 12 => 1087 case 13 => 1723 case 14 => 2803 case 15 => 4523
    case 16 => 7351 case 17 => 11959 case 18 => 19447 case 19 => 31231
    case 20 => 50683 case 21 => 81919 case 22 => 132607 case 23 => 214519
    case 24 => 346607 case 25 => 561109 case 26 => 907759 case 27 => 1468927
    case 28 => 2376191 case 29 => 3845119 case 30 => 6221311 case 31 => 10066421
    case 32 => 16287743 case 33 => 26354171 case 34 => 42641881 case 35 => 68996069
    case 36 => 111638519 case 37 => 180634607 case 38 => 292272623 case 39 => 472907251
    case 40 => 765180413 case 41 => 1238087663 case 42 => 2003267557 case 43 => 3241355263
    case 44 => 5244622819
  }

  function TableCapacity(idx: nat): (capacity: nat)
    requires idx < NUM_SIZES
  {
    match idx
    case 0 => 0 case 1 => 3 case 2 => 6 case 3 => 11
    case 4 => 19 case 5 => 32 case 6 => 52 case 7 => 85
    case 8 => 118 case 9 => 155 case 10 => 237 case 11 => 390
    case 12 => 672 case 13 => 1065 case 14 => 1732 case 15 => 2795
    case 16 => 4543 case 17 => 7391 case 18 => 12019 case 19 => 19302
    case 20 => 31324 case 21 => 50629 case 22 => 81956 case 23 => 132580
    case 24 => 214215 case 25 => 346784 case 26 => 561026 case 27 => 907847
    case 28 => 1468567 case 29 => 2376414 case 30 => 3844982 case 31 => 6221390
    case 32 => 10066379 case 33 => 16287773 case 34 => 26354132 case 35 => 42641916
    case 36 => 68996399 case 37 => 111638327 case 38 => 180634415 case 39 => 292272755
    case 40 => 472907503 case 41 => 765180257 case 42 => 1238087439 case 43 => 2003267722
    case 44 => 3241355160
  }

  /** The most entries any table admits. */
  const MAX_CAPACITY: int := 3241355160

  /** No table admits more entries than it has buckets, and larger tables admit more. */
  lemma SizeFacts(idx: nat)
    requires idx < NUM_SIZES
    ensures TableCapacity(idx) <= TableSize(idx)
    ensures idx == 0 <==> TableSize(idx) == 0
    ensures idx + 1 < NUM_SIZES ==> TableCapacity(idx) < TableCapacity(idx + 1)
    ensures TableCapacity(idx) <= TableCapacity(NUM_SIZES - 1) == MAX_CAPACITY
  {
  }

  /** From 191 buckets on a table admits 0.617 to 0.619 of them. */
  lemma LoadFactor(idx: nat)
    requires idx < NUM_SIZES
    ensures TableSize(idx) >= 191 ==> 617 * TableSize(idx) <= 1000 * TableCapacity(idx) <= 619 * TableSize(idx)
  {
  }

  /** From 71 buckets on a quarter of them can be freed before entries and freed ones are all. */
  lemma RoomForFreed(idx: nat)
    requires idx < NUM_SIZES
    ensures TableSize(idx) >= 71 ==> TableCapacity(idx) + TableSize(idx) / 4 <= TableSize(idx)
  {
  }

  /** The first table size that admits `capacity` entries. */
  method GetNumBucketsIndexForCapacity(capacity: nat) returns (idx: nat)
    requires capacity <= MAX_CAPACITY
    ensures idx < NUM_SIZES && capacity <= TableCapacity(idx)
    ensures forall j :: 0 <= j < idx ==> TableCapacity(j) < capacity
  {
    hide TableCapacity, TableSize;
    SizeFacts(NUM_SIZES - 1);
    idx := 0;
    while TableCapacity(idx) < capacity
      invariant idx < NUM_SIZES
      invariant forall j :: 0 <= j < idx ==> TableCapacity(j) < capacity
      decreases NUM_SIZES - idx
    {
      idx := idx + 1;
    }
  }
}
