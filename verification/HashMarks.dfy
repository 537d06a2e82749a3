/** In-band marks: two words of a bucket say that it is free, so a caller's value that is one of
    them is stored under a stand-in. */
module HashMarks {
  import opened Prelude

  /** Stored words that mark a bucket as never used or freed, and the stand-ins for these two
      words when they are values. */
  const MARK_EMPTY: Word := 0
  const MARK_DELETED: Word := 0xFFFF_FFFF_FFFF_FFFF
  const SUB_ZERO: Word := 0xa7baadb1
  const SUB_ONE: Word := 0xa5baadb9

  /** A value as it is stored. */
  function Stored(w: Word): Word {
    if w == MARK_EMPTY then SUB_ZERO else if w == MARK_DELETED then SUB_ONE else w
  }

  /** A stored word as the value it stands for. */
  function Fetched(w: Word): Word {
    if w == SUB_ZERO then MARK_EMPTY else if w == SUB_ONE then MARK_DELETED else w
  }

  /** Both words mark a bucket as never used, both as freed, or neither is a mark. */
  predicate SameMark(a: Word, b: Word) {
    (a == MARK_EMPTY <==> b == MARK_EMPTY) && (a == MARK_DELETED <==> b == MARK_DELETED)
  }

  /** Words a caller may store: all but the two stand-ins. */
  predicate Storable(w: Word) {
    w != SUB_ZERO && w != SUB_ONE
  }

  /** The words themselves. */
  lemma MarkLiterals(w: Word)
    ensures Stored(0) == 0xa7baadb1 && Stored(0xFFFF_FFFF_FFFF_FFFF) == 0xa5baadb9
    ensures Fetched(0xa7baadb1) == 0 && Fetched(0xa5baadb9) == 0xFFFF_FFFF_FFFF_FFFF
    ensures w != 0 && w != 0xFFFF_FFFF_FFFF_FFFF ==> Stored(w) == w
    ensures w != 0xa7baadb1 && w != 0xa5baadb9 ==> Fetched(w) == w
  {
  }

  /** A storable word comes back as it was, and is never mistaken for a mark. */
  lemma StoredFetched(w: Word)
    ensures Fetched(Stored(w)) == w <==> Storable(w)
    ensures Stored(w) != MARK_EMPTY && Stored(w) != MARK_DELETED
    ensures w != MARK_EMPTY && w != MARK_DELETED ==> Stored(Fetched(w)) == w
  {
  }
}
