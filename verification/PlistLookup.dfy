/** Looking up an ASCII string key in a dictionary of a file without parsing the dictionary,
    and when that agrees with parsing it first. */
module PlistLookup {
  import opened Prelude
  import opened PlistModel
  import opened PlistFormat
  import opened PlistTrailer
  import opened PlistDecode
  import opened PlistReadBack
  import opened PlistReader

  /** A dictionary that the reader can parse. */
  ghost predicate ParsedDict(f: File, off: nat) {
    f.Trusted() && f.Parses(off) && f.Decode(off).Refers? && f.Decode(off).kind == DictKind
  }

  /** The place of the first reference of the dictionary at `off`, and the number of its pairs. */
  function Header(f: File, off: nat): (r: Option<(nat, nat)>)
    requires f.Trusted()
  {
    if off < 8 || f.End() < off || f.data[off] / 16 != 13 then None
    else
      match ReadCount(f.data, off, f.End())
      case None => None
      case Some((n, ptr)) => if f.End() + 1 < ptr + 2 * n * f.trailer.objectRefSize then None else Some((ptr, n))
  }

  /** The number of key and value pairs of a dictionary. */
  function Pairs(f: File, off: nat): nat
    requires f.Trusted()
  {
    if Header(f, off).Some? then Header(f, off).value.1 else 0
  }

  /** What reference `i` of the dictionary leads to: the keys come first, then the values. */
  function RefOf(f: File, off: nat, i: nat): nat
    requires f.Trusted() && Header(f, off).Some?
  {
    f.RefTarget(Header(f, off).value.0 + i * f.trailer.objectRefSize)
  }

  /** Every key of the dictionary is somewhere before the offset table. */
  ghost predicate Searchable(f: File, off: nat) {
    && f.Trusted()
    && forall i :: 0 <= i < Pairs(f, off) ==> RefOf(f, off, i) <= f.End()
  }

  /** A dictionary is read alike by the reader and by the lookup. */
  lemma HeaderOfDict(f: File, off: nat)
    requires f.Trusted() && f.Decode(off).Refers? && f.Decode(off).kind == DictKind
    ensures Header(f, off).Some? && f.Decode(off).count % 2 == 0
    ensures |f.Targets(off)| == 2 * Pairs(f, off) == f.Decode(off).count
    ensures forall i :: 0 <= i < 2 * Pairs(f, off) ==> f.Targets(off)[i] == RefOf(f, off, i)
  {
    hide ReadCount, File.RefTarget, FitsTogether;
  }

  /** The parsed dictionary lists as many keys and values as the file. */
  lemma DictParsed(f: File, off: nat)
    requires ParsedDict(f, off)
    ensures f.Value(off).Dict? && |f.Value(off).keys| == |f.Value(off).values| == Pairs(f, off)
    ensures Header(f, off).Some?
  {
    hide File.Decode, File.Targets, File.Parses, File.Value, Pairs, Header;
    CollectionParses(f, off);
    HeaderOfDict(f, off);
  }

  /** Pair `i` of the parsed dictionary is what the two references of the pair lead to. */
  lemma PairParsed(f: File, off: nat, i: nat)
    requires ParsedDict(f, off) && i < Pairs(f, off)
    ensures f.Value(off).Dict? && i < |f.Value(off).keys| && i < |f.Value(off).values| && Header(f, off).Some?
    ensures f.Parses(RefOf(f, off, i)) && f.Value(RefOf(f, off, i)) == f.Value(off).keys[i]
    ensures f.Value(off).keys[i].IsPrimitive()
    ensures f.Parses(RefOf(f, off, Pairs(f, off) + i))
    ensures f.Value(RefOf(f, off, Pairs(f, off) + i)) == f.Value(off).values[i]
  {
    hide File.Decode, File.Targets, File.Parses, File.Value, Pairs, Header, RefOf;
    CollectionParses(f, off);
    HeaderOfDict(f, off);
    var offs, n := f.Targets(off), Pairs(f, off);
    var list := ValuesOf(f, offs);
    assert f.Parses(offs[i]) && list[i] == f.Value(offs[i]);
    assert f.Parses(offs[n + i]) && list[n + i] == f.Value(offs[n + i]);
  }

  /** A dictionary that parses can be searched. */
  lemma ParsedSearchable(f: File, off: nat)
    requires ParsedDict(f, off)
    ensures Searchable(f, off) && Header(f, off).Some?
  {
    hide File.Decode, File.Parses, File.Value, Header, RefOf;
    DictParsed(f, off);
    forall i | 0 <= i < Pairs(f, off)
      ensures RefOf(f, off, i) <= f.End()
    {
      PairParsed(f, off, i);
      ParsesInside(f, RefOf(f, off, i));
    }
  }

  /** The first pair of a parsed dictionary whose key is the string `key`: the one a dictionary
      built by adding the pairs in order keeps. */
  function FirstKey(keys: seq<Plist>, key: seq<Unit>, from: nat): (r: Option<nat>)
    requires from <= |keys|
    ensures r.Some? ==> from <= r.value < |keys| && keys[r.value] == Text(key)
    ensures r.Some? ==> forall i :: from <= i < r.value ==> keys[i] != Text(key)
    ensures r.None? ==> forall i :: from <= i < |keys| ==> keys[i] != Text(key)
    decreases |keys| - from
  {
    if from == |keys| then None
    else if keys[from] == Text(key) then Some(from)
    else FirstKey(keys, key, from + 1)
  }

  function Marker(f: File, off: nat): Byte
    requires f.Trusted() && off <= f.End()
  {
    f.data[off]
  }

  /** Whether the object at `off` is compared byte by byte: a string stored as ASCII, when the
      characters of the key are at hand. */
  predicate Quick(f: File, off: nat, haveBytes: bool)
    requires f.Trusted() && off <= f.End()
  {
    haveBytes && Marker(f, off) / 16 == 5
  }

  /** The stored string has the count in a separate integer, which is passed over because the
      key is shorter than 15 characters. */
  predicate LongForm(f: File, off: nat, key: seq<Unit>, haveBytes: bool)
    requires f.Trusted() && off <= f.End()
  {
    Quick(f, off, haveBytes) && Marker(f, off) % 16 == 15 && |key| < 15
  }

  /** A string of the length of the key whose last character is the last byte before the
      offset table: the comparison refuses it as too long. */
  predicate TouchesTable(f: File, off: nat, key: seq<Unit>, haveBytes: bool)
    requires f.Trusted() && off <= f.End()
  {
    Quick(f, off, haveBytes) && !LongForm(f, off, key, haveBytes)
    && match ReadCount(f.data, off, f.End())
       case None => false
       case Some((n, ptr)) => n == |key| && ptr + n == f.End() + 1
  }

  /** The outcome of comparing the key with one object: refused, or whether it matches. */
  datatype Outcome = Refused | Compared(equal: bool)

  /** The byte comparison with the ASCII string that a header delimits. */
  function CompareSpec(f: File, off: nat, key: seq<Unit>): Outcome
    requires f.Trusted() && off <= f.End()
  {
    if Marker(f, off) % 16 == 15 && |key| < 15 then Compared(false)
    else
      match ReadCount(f.data, off, f.End())
      case None => Refused
      case Some((n, ptr)) =>
        if n != |key| then Compared(false)
        else if f.End() + 1 <= ptr + n then Refused
        else Compared(f.data[ptr..ptr + n] == key)
  }

  /** The comparison of any object with the key. */
  ghost function OutcomeOf(f: File, off: nat, key: seq<Unit>, haveBytes: bool): Outcome
    requires f.Trusted() && off <= f.End()
  {
    if Quick(f, off, haveBytes) then CompareSpec(f, off, key)
    else if !f.Parses(off) || !f.Value(off).IsPrimitive() then Refused
    else Compared(f.Value(off) == Text(key))
  }

  /** What it is, told by the value of an object that parses. */
  ghost function Meant(f: File, off: nat, key: seq<Unit>, haveBytes: bool): Outcome
    requires f.Trusted() && f.Parses(off) && 8 <= off <= f.End()
  {
    if TouchesTable(f, off, key, haveBytes) || !f.Value(off).IsPrimitive() then Refused
    else Compared(f.Value(off) == Text(key) && !LongForm(f, off, key, haveBytes))
  }

  lemma ParsesInside(f: File, off: nat)
    requires f.Trusted() && f.Parses(off)
    ensures 8 <= off <= f.End()
  {
    hide FitsTogether, File.ParseN;
    if f.Decode(off).Refers? { CollectionParses(f, off); } else { WholeParses(f, off); }
    EndInside(f);
  }

  /** A stored ASCII string parses exactly when its header delimits characters before the table,
      and has these characters. */
  lemma AsciiParsed(f: File, off: nat)
    requires f.Trusted() && 8 <= off <= f.End() && Marker(f, off) / 16 == 5
    ensures f.Parses(off) <==>
      match ReadCount(f.data, off, f.End())
      case None => false
      case Some((n, ptr)) => ptr + n <= f.End() + 1
    ensures f.Parses(off) ==>
      var (n, ptr) := ReadCount(f.data, off, f.End()).value; f.Value(off) == Text(f.data[ptr..ptr + n])
  {
    NotRefers(f, off);
    hide ReadCount, FitsTogether, File.Parses, File.Value;
    WholeParses(f, off);
    EndInside(f);
    assert f.Decode(off) == f.DecodeInside(off);
  }

  lemma NotRefers(f: File, off: nat)
    requires f.Trusted() && 8 <= off <= f.End() && Marker(f, off) / 16 == 5
    ensures !f.Decode(off).Refers?
  {
    hide DecodeBytes;
  }

  /** An object that parses is compared as its value says. */
  lemma OutcomeMeant(f: File, off: nat, key: seq<Unit>, haveBytes: bool)
    requires f.Trusted() && f.Parses(off) && 8 <= off <= f.End()
    ensures OutcomeOf(f, off, key, haveBytes) == Meant(f, off, key, haveBytes)
  {
    hide FitsTogether, File.Parses, File.Value, ReadCount;
    if Quick(f, off, haveBytes) {
      AsciiParsed(f, off);
      var (n, ptr) := ReadCount(f.data, off, f.End()).value;
      assert |f.data[ptr..ptr + n]| == n;
    }
  }

  /** No byte of the header starts a key that is matched. */
  lemma HeaderNoKey(f: File, off: nat, key: seq<Unit>, haveBytes: bool)
    requires f.Trusted() && off <= f.End() && f.data[..8] == HEADER
    ensures OutcomeOf(f, off, key, haveBytes) == Compared(true) ==> 8 <= off
  {
    hide File.ParseN, FitsTogether;
    EndInside(f);
    if off < 8 {
      assert f.data[..8][off] == HEADER[off];
      WholeParses(f, off);
    }
  }

  /** Among the objects a key is matched only by one that parses to it. */
  lemma MatchIsKey(f: File, off: nat, key: seq<Unit>, haveBytes: bool)
    requires f.Trusted() && 8 <= off <= f.End() && OutcomeOf(f, off, key, haveBytes) == Compared(true)
    ensures f.Parses(off) && f.Value(off) == Text(key)
  {
    hide FitsTogether, File.Parses, File.Value, ReadCount;
    if Quick(f, off, haveBytes) { AsciiParsed(f, off); }
  }

  /** The length the comparison sees in a string header, and where the characters start: the
      separate count is read only when the key has 15 characters or more. */
  method QuickHeader(f: File, off: nat, keyLen: nat) returns (ok: bool, len: nat, ptr2: nat)
    requires f.Trusted() && off <= f.End()
    ensures if Marker(f, off) % 16 == 15 && keyLen < 15 then ok && len != keyLen
            else match ReadCount(f.data, off, f.End())
                 case None => !ok
                 case Some(r) => ok && (len, ptr2) == r
  {
    hide ReadInt, FitsTogether;
    EndInside(f);
    ok, len, ptr2 := true, f.data[off] % 16, off + 1;
    if 0xf == len && 0xf <= keyLen {
      var r := ReadInt(f.data, ptr2, f.End());
      ok := r.Some? && r.value.0 <= TWO_63 - 1;
      if ok {
        len, ptr2 := r.value.0, r.value.1;
      }
    }
  }

  /** The byte comparison of the key with the ASCII string at `off`. */
  method CompareBytes(f: File, off: nat, key: seq<Unit>) returns (r: Outcome)
    requires f.Trusted() && off <= f.End() && Marker(f, off) / 16 == 5
    ensures r == OutcomeOf(f, off, key, true)
    ensures f.Parses(off) ==> 8 <= off && r == Meant(f, off, key, true)
    ensures r == Compared(true) && 8 <= off ==> f.Parses(off) && f.Value(off) == Text(key)
  {
    hide FitsTogether, File.Parses, File.Value, ReadCount, Meant;
    EndInside(f);
    if f.Parses(off) {
      ParsesInside(f, off);
      OutcomeMeant(f, off, key, true);
    }
    if OutcomeOf(f, off, key, true) == Compared(true) && 8 <= off { MatchIsKey(f, off, key, true); }
    var ok, len, ptr2 := QuickHeader(f, off, |key|);
    if !ok {
      return Refused;
    }
    if len == |key| {
      var extent := ptr2 + len;
      if f.trailer.offsetTableOffset <= extent {
        return Refused;
      }
      r := Compared(f.data[ptr2..ptr2 + |key|] == key);
    } else {
      r := Compared(false);
    }
  }

  /** Compares the key with the object at `off` of the file. */
  method CompareKey(f: File, off: nat, key: seq<Unit>, haveBytes: bool) returns (r: Outcome)
    requires f.Trusted() && off <= f.End() && (haveBytes ==> IsAscii(key))
    ensures r == OutcomeOf(f, off, key, haveBytes)
  {
    hide ReadCount, FitsTogether, File.Parses, File.Value, Reaches, CompareSpec;
    EndInside(f);
    var marker := Marker(f, off);
    if haveBytes && marker / 16 == 5 {
      r := CompareBytes(f, off, key);
    } else {
      var ok, keyInData := CreateObject(f, off, Immutable, null, null, 0);
      if !ok || !keyInData.IsPrimitive() {
        return Refused;
      }
      r := Compared(Text(key) == keyInData);
    }
  }

  /** What comparing the key with each key of a dictionary gives. */
  ghost function Outcomes(f: File, off: nat, key: seq<Unit>, haveBytes: bool): (r: seq<Outcome>)
    requires Searchable(f, off)
    ensures |r| == Pairs(f, off)
  {
    seq(Pairs(f, off), i requires 0 <= i < Pairs(f, off) => OutcomeOf(f, RefOf(f, off, i), key, haveBytes))
  }

  /** The comparison at which a search stops, from `from` on. */
  function Stop(outcomes: seq<Outcome>, from: nat): (r: nat)
    requires from <= |outcomes|
    ensures from <= r <= |outcomes|
    ensures forall i :: from <= i < r ==> outcomes[i] == Compared(false)
    ensures r < |outcomes| ==> outcomes[r] != Compared(false)
    decreases |outcomes| - from
  {
    if from == |outcomes| || outcomes[from] != Compared(false) then from else Stop(outcomes, from + 1)
  }

  /** The comparison that matches before any is refused. */
  function Found(outcomes: seq<Outcome>): (r: Option<nat>)
    ensures r.Some? ==> r.value < |outcomes|
  {
    var i := Stop(outcomes, 0);
    if i < |outcomes| && outcomes[i] == Compared(true) then Some(i) else None
  }

  /** The pair the quick search finds. */
  ghost function QuickKey(f: File, off: nat, key: seq<Unit>, haveBytes: bool): (r: Option<nat>)
    requires Searchable(f, off)
    ensures r.Some? ==> r.value < Pairs(f, off)
  {
    Found(Outcomes(f, off, key, haveBytes))
  }

  /** The linear search over the keys of the dictionary at an offset, if there is one. It need not
      parse as a whole; the key found does, at least if the header is the usual one. */
  method GetOffsetForValue(f: File, startOffset: nat, key: seq<Unit>, haveBytes: bool)
    returns (found: bool, koffset: nat, voffset: nat)
    requires Searchable(f, startOffset) && (haveBytes ==> IsAscii(key))
    ensures found <==> QuickKey(f, startOffset, key, haveBytes).Some?
    ensures found ==>
      var i := QuickKey(f, startOffset, key, haveBytes).value;
      koffset == RefOf(f, startOffset, i) && voffset == RefOf(f, startOffset, Pairs(f, startOffset) + i)
    ensures found && (8 <= koffset || f.data[..8] == HEADER) ==> f.Parses(koffset) && f.Value(koffset) == Text(key)
    ensures found && ParsedDict(f, startOffset) ==>
      var i := QuickKey(f, startOffset, key, haveBytes).value;
      && f.Value(startOffset).Dict? && i < |f.Value(startOffset).values|
      && f.Parses(voffset) && f.Value(voffset) == f.Value(startOffset).values[i]
  {
    hide File.Decode, File.Targets, File.Parses, File.Value, File.RefTarget, OutcomeOf, FitsTogether;
    hide Outcomes, Stop, QuickKey, ReadCount;
    found, koffset, voffset := false, 0, 0;
    EndInside(f);
    if startOffset < 8 || f.End() < startOffset || f.data[startOffset] / 16 != 13 {
      NoPairs(f, startOffset, key, haveBytes);
      return;
    }
    var r := ReadCount(f.data, startOffset, f.End());
    if r.None? || f.End() + 1 < r.value.1 + 2 * r.value.0 * f.trailer.objectRefSize {
      NoPairs(f, startOffset, key, haveBytes);
      return;
    }
    var (cnt, first) := r.value;
    var totalKeySize := cnt * f.trailer.objectRefSize;
    var ptr: int := first;
    for idx := 0 to cnt
      invariant ptr == first + idx * f.trailer.objectRefSize
      invariant Stop(Outcomes(f, startOffset, key, haveBytes), 0) == Stop(Outcomes(f, startOffset, key, haveBytes), idx)
    {
      var off := GetOffsetOfRefAt(f, ptr);
      assert off == RefOf(f, startOffset, idx);
      StopStep(f, startOffset, key, haveBytes, idx);
      var outcome := CompareKey(f, off, key, haveBytes);
      if outcome == Refused {
        return;
      }
      if outcome.equal {
        voffset := GetOffsetOfRefAt(f, ptr + totalKeySize);
        assert ptr + totalKeySize == first + (cnt + idx) * f.trailer.objectRefSize;
        if f.data[..8] == HEADER { HeaderNoKey(f, off, key, haveBytes); }
        if 8 <= off { MatchIsKey(f, off, key, haveBytes); }
        if ParsedDict(f, startOffset) { PairParsed(f, startOffset, idx); }
        return true, off, voffset;
      }
      ptr := ptr + f.trailer.objectRefSize;
    }
    StopStep(f, startOffset, key, haveBytes, cnt);
  }

  lemma NoPairs(f: File, off: nat, key: seq<Unit>, haveBytes: bool)
    requires Searchable(f, off) && Pairs(f, off) == 0
    ensures QuickKey(f, off, key, haveBytes) == None
  {
  }

  /** One pair of the search, and what the search finds when it stops there. */
  lemma StopStep(f: File, off: nat, key: seq<Unit>, haveBytes: bool, i: nat)
    requires Searchable(f, off) && i <= Pairs(f, off)
    requires var o := Outcomes(f, off, key, haveBytes); Stop(o, 0) == Stop(o, i)
    ensures i == Pairs(f, off) ==> QuickKey(f, off, key, haveBytes) == None
    ensures i < Pairs(f, off) ==>
      var r := OutcomeOf(f, RefOf(f, off, i), key, haveBytes);
      && (r == Compared(false) ==>
           var o := Outcomes(f, off, key, haveBytes); Stop(o, 0) == Stop(o, i + 1))
      && (r == Compared(true) ==> QuickKey(f, off, key, haveBytes) == Some(i))
      && (r == Refused ==> QuickKey(f, off, key, haveBytes) == None)
  {
    hide File.Decode, File.Targets, File.Parses, File.Value, OutcomeOf, FitsTogether, RefOf, Header;
  }

  /** The quick search finds the very pair that parsing the dictionary and then looking the key
      up finds, if and only if no string of the key's length met up to that pair ends at the
      offset table, and the pair's own key is not stored with a separate count below 15. When
      no key of the dictionary equals the sought one, neither finds anything. */
  lemma QuickAgrees(f: File, off: nat, key: seq<Unit>, haveBytes: bool)
    requires ParsedDict(f, off)
    ensures Searchable(f, off) && Header(f, off).Some?
    ensures f.Value(off).Dict? && |f.Value(off).keys| == Pairs(f, off)
    ensures var full := FirstKey(f.Value(off).keys, key, 0);
      QuickKey(f, off, key, haveBytes) == full <==>
        (full.Some? ==>
          && (forall i :: 0 <= i <= full.value ==> !TouchesTable(f, RefOf(f, off, i), key, haveBytes))
          && !LongForm(f, RefOf(f, off, full.value), key, haveBytes))
  {
    hide File.Decode, File.Targets, File.Parses, File.Value, TouchesTable, LongForm, Found, FirstKey, RefOf, Header;
    hide OutcomeOf;
    DictParsed(f, off);
    ParsedSearchable(f, off);
    var keys := f.Value(off).keys;
    var touches := seq(Pairs(f, off), i requires 0 <= i < Pairs(f, off) =>
      TouchesTable(f, RefOf(f, off, i), key, haveBytes));
    var long := seq(Pairs(f, off), i requires 0 <= i < Pairs(f, off) =>
      LongForm(f, RefOf(f, off, i), key, haveBytes));
    var outcomes := Outcomes(f, off, key, haveBytes);
    forall i | 0 <= i < Pairs(f, off)
      ensures outcomes[i] == if touches[i] then Refused else Compared(keys[i] == Text(key) && !long[i])
    {
      PairParsed(f, off, i);
      ParsesInside(f, RefOf(f, off, i));
      OutcomeMeant(f, RefOf(f, off, i), key, haveBytes);
    }
    FoundAgrees(outcomes, keys, key, touches, long);
    assert forall i :: 0 <= i < Pairs(f, off) ==>
      && touches[i] == TouchesTable(f, RefOf(f, off, i), key, haveBytes)
      && long[i] == LongForm(f, RefOf(f, off, i), key, haveBytes);
  }

  /** The same about the outcomes alone. */
  lemma FoundAgrees(outcomes: seq<Outcome>, keys: seq<Plist>, key: seq<Unit>, touches: seq<bool>, long: seq<bool>)
    requires |outcomes| == |keys| == |touches| == |long|
    requires forall i :: 0 <= i < |keys| ==>
      outcomes[i] == if touches[i] then Refused else Compared(keys[i] == Text(key) && !long[i])
    ensures var full := FirstKey(keys, key, 0);
      Found(outcomes) == full <==>
        (full.Some? ==> (forall i :: 0 <= i <= full.value ==> !touches[i]) && !long[full.value])
  {
  }
}
