/**
 * The two builders of the GenICam XML loader (`AddressingBuilder` and
 * `BitfieldBuilder` in `genapi-xml`): an element handler feeds them the
 * children it meets, in document order, and resolves them once the element
 * closes into a node's addressing and bitfield metadata.
 */
module GenApiBuilders {
  import opened Bytes
  import opened Wrappers
  import opened Text
  import opened GenApiXml
  import BitOps

  /** `Option::or`: the first value that is present. */
  function OrElse<T>(a: Option<T>, b: Option<T>): (r: Option<T>)
    ensures r.Some? <==> a.Some? || b.Some?
  {
    if a.Some? then a else b
  }

  // -------------------------------------------------------------------
  // Addressing.

  /** A `<Selected>` register block: the selector value, its address and an optional own length. */
  datatype AddressEntry = AddressEntry(value: string, address: u64, len: Option<u32>)

  /** The selector table of `BySelector`: value to (address, length), in table order. */
  type SelectorTable = seq<(string, (u64, u32))>

  /** How a node's register block is located. */
  datatype Addressing =
    | Fixed(address: u64, len: u32)
    | BySelector(selector: string, table: SelectorTable)
    | Indirect(pAddressNode: string, len: u32)

  /** The table has at most one pair per selector value. */
  predicate Distinct(table: SelectorTable)
  {
    forall i, j :: 0 <= i < j < |table| ==> table[i].0 != table[j].0
  }

  /** The block of the first pair with selector value `key`. */
  function Lookup(table: SelectorTable, key: string): (r: Option<(u64, u32)>)
    ensures r.None? <==> forall i :: 0 <= i < |table| ==> table[i].0 != key
  {
    if |table| == 0 then None
    else if table[0].0 == key then Some(table[0].1)
    else Lookup(table[1..], key)
  }

  /**
   * The table update of `finalize`: the first pair with the same value is
   * overwritten where it stands, otherwise the pair goes to the end.
   */
  function Upsert(table: SelectorTable, key: string, block: (u64, u32)): (r: SelectorTable)
    ensures |r| == |table| + (if Lookup(table, key).None? then 1 else 0)
    ensures forall i :: 0 <= i < |table| ==> r[i] == table[i] || (table[i].0 == key && r[i] == (key, block))
    ensures |table| < |r| ==> r[|table|] == (key, block)
  {
    if |table| == 0 then [(key, block)]
    else if table[0].0 == key then [(key, block)] + table[1..]
    else [table[0]] + Upsert(table[1..], key, block)
  }

  /** After the update, `key` finds the new block and every other value what it found before. */
  lemma {:induction false} UpsertLookup(table: SelectorTable, key: string, block: (u64, u32), k: string)
    ensures Lookup(Upsert(table, key, block), k) == if k == key then Some(block) else Lookup(table, k)
  {
    if |table| > 0 && table[0].0 != key {
      UpsertLookup(table[1..], key, block, k);
    }
  }

  /** The update keeps the values of the table distinct. */
  lemma UpsertDistinct(table: SelectorTable, key: string, block: (u64, u32))
    requires Distinct(table)
    ensures Distinct(Upsert(table, key, block))
  {
    var r := Upsert(table, key, block);
    forall i, j | 0 <= i < j < |r|
      ensures r[i].0 != r[j].0
    {
      if j == |table| {
        assert r[j] == (key, block);
        assert r[i] == table[i];
      }
    }
  }

  /** The length an entry ends up with: its own, else the node's, else the caller's default. */
  function EntryLen(entry: AddressEntry, length: Option<u32>, defaultLen: Option<u32>): Option<u32>
  {
    OrElse(OrElse(entry.len, length), defaultLen)
  }

  /** The selector table after the entries in order, or the error of the first entry without a length. */
  function TableOf(node: string, entries: seq<AddressEntry>, length: Option<u32>, defaultLen: Option<u32>)
    : (r: Result<SelectorTable, XmlError>)
    ensures r.Ok? <==> forall i :: 0 <= i < |entries| ==> EntryLen(entries[i], length, defaultLen).Some?
    ensures r.Ok? ==> Distinct(r.value) && |r.value| <= |entries|
  {
    if |entries| == 0 then Ok([])
    else
      var n := |entries| - 1;
      var entry := entries[n];
      var prefix := TableOf(node, entries[..n], length, defaultLen);
      assert forall i :: 0 <= i < n ==> entries[..n][i] == entries[i];
      match prefix
      case Err(e) => Err(e)
      case Ok(table) =>
        match EntryLen(entry, length, defaultLen)
        case None => Err(Invalid("node " + node + " is missing <Length> for selector value " + entry.value))
        case Some(len) =>
          UpsertDistinct(table, entry.value, (entry.address, len));
          Ok(Upsert(table, entry.value, (entry.address, len)))
  }

  /** Once a prefix of the entries fails, the whole table fails with the same error. */
  lemma {:induction false} TableErrorSticks(node: string, entries: seq<AddressEntry>, length: Option<u32>,
                                            defaultLen: Option<u32>, i: nat)
    requires i <= |entries| && TableOf(node, entries[..i], length, defaultLen).Err?
    ensures TableOf(node, entries, length, defaultLen) == TableOf(node, entries[..i], length, defaultLen)
  {
    if i < |entries| {
      var p := entries[..|entries| - 1];
      assert p[..i] == entries[..i];
      TableErrorSticks(node, p, length, defaultLen, i);
    } else {
      assert entries[..i] == entries;
    }
  }

  /** A failing table reports the first entry that has no length at all. */
  lemma {:induction false} TableFirstError(node: string, entries: seq<AddressEntry>, length: Option<u32>,
                                           defaultLen: Option<u32>) returns (i: nat)
    requires TableOf(node, entries, length, defaultLen).Err?
    ensures i < |entries| && EntryLen(entries[i], length, defaultLen).None?
    ensures forall j :: 0 <= j < i ==> EntryLen(entries[j], length, defaultLen).Some?
    ensures TableOf(node, entries, length, defaultLen)
         == Err(Invalid("node " + node + " is missing <Length> for selector value " + entries[i].value))
  {
    var n := |entries| - 1;
    var p := entries[..n];
    assert forall j :: 0 <= j < n ==> p[j] == entries[j];
    if TableOf(node, p, length, defaultLen).Err? {
      i := TableFirstError(node, p, length, defaultLen);
    } else {
      i := n;
    }
  }

  /** Every selector value of the table comes from some entry. */
  lemma {:induction false} TableKeyFrom(node: string, entries: seq<AddressEntry>, length: Option<u32>,
                                        defaultLen: Option<u32>, key: string) returns (i: nat)
    requires TableOf(node, entries, length, defaultLen).Ok?
    requires Lookup(TableOf(node, entries, length, defaultLen).value, key).Some?
    ensures i < |entries| && entries[i].value == key
  {
    var n := |entries| - 1;
    var p := entries[..n];
    if entries[n].value == key {
      i := n;
    } else {
      var len := EntryLen(entries[n], length, defaultLen).value;
      UpsertLookup(TableOf(node, p, length, defaultLen).value, entries[n].value, (entries[n].address, len), key);
      i := TableKeyFrom(node, p, length, defaultLen, key);
    }
  }

  /**
   * For the last entry of each selector value, the table holds that entry's
   * address with its resolved length: a later duplicate replaces the earlier one.
   */
  lemma {:induction false} TableLastWins(node: string, entries: seq<AddressEntry>, length: Option<u32>,
                                         defaultLen: Option<u32>, i: nat)
    requires TableOf(node, entries, length, defaultLen).Ok?
    requires i < |entries| && forall j :: i < j < |entries| ==> entries[j].value != entries[i].value
    ensures EntryLen(entries[i], length, defaultLen).Some?
    ensures Lookup(TableOf(node, entries, length, defaultLen).value, entries[i].value)
         == Some((entries[i].address, EntryLen(entries[i], length, defaultLen).value))
  {
    var n := |entries| - 1;
    var p := entries[..n];
    if i < n {
      TableLastWins(node, p, length, defaultLen, i);
      TableKeepsEarlier(node, entries, length, defaultLen, i);
    } else {
      TableLastEntry(node, entries, length, defaultLen);
    }
  }

  /** The last entry's value finds the last entry's block. */
  lemma TableLastEntry(node: string, entries: seq<AddressEntry>, length: Option<u32>, defaultLen: Option<u32>)
    requires |entries| > 0 && TableOf(node, entries, length, defaultLen).Ok?
    ensures var last := entries[|entries| - 1];
      && EntryLen(last, length, defaultLen).Some?
      && Lookup(TableOf(node, entries, length, defaultLen).value, last.value)
         == Some((last.address, EntryLen(last, length, defaultLen).value))
  {
    var n := |entries| - 1;
    TableOfLast(node, entries, length, defaultLen);
    var block := (entries[n].address, EntryLen(entries[n], length, defaultLen).value);
    UpsertLookup(TableOf(node, entries[..n], length, defaultLen).value, entries[n].value, block, entries[n].value);
  }

  /** The last entry leaves the lookup of any other value as the earlier entries made it. */
  lemma TableKeepsEarlier(node: string, entries: seq<AddressEntry>, length: Option<u32>, defaultLen: Option<u32>, i: nat)
    requires TableOf(node, entries, length, defaultLen).Ok?
    requires i < |entries| - 1 && entries[i].value != entries[|entries| - 1].value
    ensures TableOf(node, entries[..|entries| - 1], length, defaultLen).Ok?
    ensures Lookup(TableOf(node, entries, length, defaultLen).value, entries[i].value)
         == Lookup(TableOf(node, entries[..|entries| - 1], length, defaultLen).value, entries[i].value)
  {
    var n := |entries| - 1;
    TableOfLast(node, entries, length, defaultLen);
    var len := EntryLen(entries[n], length, defaultLen).value;
    UpsertLookup(TableOf(node, entries[..n], length, defaultLen).value, entries[n].value, (entries[n].address, len), entries[i].value);
  }

  /** A successful table is the one of all entries but the last, updated with the last. */
  lemma TableOfLast(node: string, entries: seq<AddressEntry>, length: Option<u32>, defaultLen: Option<u32>)
    requires |entries| > 0 && TableOf(node, entries, length, defaultLen).Ok?
    ensures var n := |entries| - 1;
      && TableOf(node, entries[..n], length, defaultLen).Ok?
      && EntryLen(entries[n], length, defaultLen).Some?
      && TableOf(node, entries, length, defaultLen).value
         == Upsert(TableOf(node, entries[..n], length, defaultLen).value, entries[n].value,
                   (entries[n].address, EntryLen(entries[n], length, defaultLen).value))
  {
  }

  /**
   * A duplicate selector value keeps the table's size and the position of
   * the earlier pair; a new value is appended.
   */
  lemma TableDuplicateInPlace(node: string, entries: seq<AddressEntry>, entry: AddressEntry,
                              length: Option<u32>, defaultLen: Option<u32>)
    requires TableOf(node, entries + [entry], length, defaultLen).Ok?
    ensures TableOf(node, entries, length, defaultLen).Ok?
    ensures var before := TableOf(node, entries, length, defaultLen).value;
            var after := TableOf(node, entries + [entry], length, defaultLen).value;
            && (Lookup(before, entry.value).Some? ==> |after| == |before|)
            && (Lookup(before, entry.value).None? ==> |after| == |before| + 1 && after[..|before|] == before)
            && forall k :: 0 <= k < |before| && before[k].0 != entry.value ==> after[k] == before[k]
  {
    assert (entries + [entry])[..|entries|] == entries;
  }

  /** The seven fields of `AddressingBuilder`, as one value. */
  datatype AddressingFields = AddressingFields(
    fixedAddress: Option<u64>,
    length: Option<u32>,
    selector: Option<string>,
    entries: seq<AddressEntry>,
    pendingValue: Option<string>,
    pendingLen: Option<u32>,
    pAddressNode: Option<string>)

  /**
   * `finalize`: selected entries make a selector table (and need a
   * selector); otherwise a `pAddress` makes the node indirect; otherwise
   * the fixed address is used. The last two need the node's length or the
   * caller's default.
   */
  function ResolveAddressing(f: AddressingFields, node: string, defaultLen: Option<u32>): (r: Result<Addressing, XmlError>)
    ensures r.Ok? ==> (r.value.BySelector? <==> f.entries != [])
    ensures r.Ok? ==> (r.value.Indirect? <==> f.entries == [] && f.pAddressNode.Some?)
    ensures r.Ok? && r.value.BySelector? ==>
      f.selector == Some(r.value.selector) && TableOf(node, f.entries, f.length, defaultLen) == Ok(r.value.table)
    ensures r.Ok? && !r.value.BySelector? ==> OrElse(f.length, defaultLen) == Some(r.value.len)
  {
    if f.entries != [] then
      match f.selector
      case None => Err(Invalid("node " + node + " provides <Selected> addresses without <pSelected>"))
      case Some(selector) =>
        match TableOf(node, f.entries, f.length, defaultLen)
        case Err(e) => Err(e)
        case Ok(table) => Ok(BySelector(selector, table))
    else
      match OrElse(f.length, defaultLen)
      case None => Err(Invalid("node " + node + " is missing <Length>"))
      case Some(len) =>
        match f.pAddressNode
        case Some(p) => Ok(Indirect(p, len))
        case None =>
          match f.fixedAddress
          case None => Err(Invalid("node " + node + " is missing <Address>"))
          case Some(address) => Ok(Fixed(address, len))
  }

  /** With any selected entry, `pAddress` and the fixed address are ignored. */
  lemma SelectorTableWins(f: AddressingFields, node: string, defaultLen: Option<u32>,
                          fixedAddress: Option<u64>, pAddressNode: Option<string>)
    requires f.entries != []
    ensures ResolveAddressing(f, node, defaultLen)
         == ResolveAddressing(f.(fixedAddress := fixedAddress, pAddressNode := pAddressNode), node, defaultLen)
  {
  }

  /** Without selected entries, a `pAddress` makes the fixed address irrelevant. */
  lemma IndirectWins(f: AddressingFields, node: string, defaultLen: Option<u32>, fixedAddress: Option<u64>)
    requires f.entries == [] && f.pAddressNode.Some?
    ensures ResolveAddressing(f, node, defaultLen) == ResolveAddressing(f.(fixedAddress := fixedAddress), node, defaultLen)
  {
  }

  /** When resolution fails, and with which message. */
  lemma AddressingErrors(f: AddressingFields, node: string, defaultLen: Option<u32>)
    ensures f.entries != [] && f.selector.None? ==>
      ResolveAddressing(f, node, defaultLen) == Err(Invalid("node " + node + " provides <Selected> addresses without <pSelected>"))
    ensures f.entries != [] && f.selector.Some? ==>
      (ResolveAddressing(f, node, defaultLen).Err? <==>
         exists i :: 0 <= i < |f.entries| && EntryLen(f.entries[i], f.length, defaultLen).None?)
    ensures f.entries == [] ==>
      (ResolveAddressing(f, node, defaultLen).Err? <==>
         OrElse(f.length, defaultLen).None? || (f.pAddressNode.None? && f.fixedAddress.None?))
    ensures f.entries == [] && OrElse(f.length, defaultLen).None? ==>
      ResolveAddressing(f, node, defaultLen) == Err(Invalid("node " + node + " is missing <Length>"))
  {
  }

  /** `AddressingBuilder`: the addressing children of one node, collected in document order. */
  class AddressingBuilder {
    var fixedAddress: Option<u64>
    var length: Option<u32>
    var selector: Option<string>
    var entries: seq<AddressEntry>
    var pendingValue: Option<string>
    var pendingLen: Option<u32>
    var pAddressNode: Option<string>

    function Fields(): AddressingFields
      reads this
    {
      AddressingFields(fixedAddress, length, selector, entries, pendingValue, pendingLen, pAddressNode)
    }

    /** A length for a selected value only exists while that value waits for its address. */
    ghost predicate Valid()
      reads this
    {
      pendingLen.Some? ==> pendingValue.Some?
    }

    /** `AddressingBuilder::default()`. */
    constructor ()
      ensures Fields() == AddressingFields(None, None, None, [], None, None, None)
      ensures Valid()
    {
      fixedAddress, length, selector, entries := None, None, None, [];
      pendingValue, pendingLen, pAddressNode := None, None, None;
    }

    method SetFixedAddress(address: u64)
      requires Valid()
      modifies this
      ensures Valid() && Fields() == old(Fields()).(fixedAddress := Some(address))
    {
      fixedAddress := Some(address);
    }

    method SetLength(len: u32)
      requires Valid()
      modifies this
      ensures Valid() && Fields() == old(Fields()).(length := Some(len))
    {
      length := Some(len);
    }

    method SetPAddressNode(node: string)
      requires Valid()
      modifies this
      ensures Valid() && Fields() == old(Fields()).(pAddressNode := Some(node))
    {
      pAddressNode := Some(node);
    }

    /** The first `pSelected` wins. */
    method RegisterSelector(name: string)
      requires Valid()
      modifies this
      ensures Valid()
      ensures old(selector).None? ==> Fields() == old(Fields()).(selector := Some(name))
      ensures old(selector).Some? ==> Fields() == old(Fields())
    {
      if selector.None? {
        selector := Some(name);
      }
    }

    /** A `<Selected>` value starts a new pending entry, dropping a length given for the previous one. */
    method PushSelectedValue(value: string)
      requires Valid()
      modifies this
      ensures Valid() && Fields() == old(Fields()).(pendingValue := Some(value), pendingLen := None)
    {
      pendingValue := Some(value);
      pendingLen := None;
    }

    /** A `<Length>` belongs to the pending selected value if there is one, else to the node. */
    method ApplyLength(len: u32)
      requires Valid()
      modifies this
      ensures Valid()
      ensures old(pendingValue).Some? ==> Fields() == old(Fields()).(pendingLen := Some(len))
      ensures old(pendingValue).None? ==> Fields() == old(Fields()).(length := Some(len))
    {
      if pendingValue.Some? {
        pendingLen := Some(len);
      } else {
        length := Some(len);
      }
    }

    /**
     * An `<Address>` completes the pending entry (an explicit length taking
     * precedence over the pending one); without one it is the fixed address.
     */
    method AttachSelectedAddress(address: u64, lenOverride: Option<u32>)
      requires Valid()
      modifies this
      ensures Valid()
      ensures old(pendingValue).Some? ==>
        Fields() == old(Fields()).(entries := old(entries) + [AddressEntry(old(pendingValue).value, address, OrElse(lenOverride, old(pendingLen)))],
                                   pendingValue := None, pendingLen := None)
      ensures old(pendingValue).None? ==>
        Fields() == old(Fields()).(fixedAddress := Some(address), length := OrElse(lenOverride, old(length)))
    {
      if pendingValue.Some? {
        var value := pendingValue.value;
        var len := OrElse(lenOverride, pendingLen);
        pendingValue, pendingLen := None, None;
        entries := entries + [AddressEntry(value, address, len)];
      } else {
        fixedAddress := Some(address);
        if lenOverride.Some? {
          length := lenOverride;
        }
      }
    }

    /** `finalize`, building the selector table entry by entry. */
    method Finalize(node: string, defaultLen: Option<u32>) returns (r: Result<Addressing, XmlError>)
      ensures r == ResolveAddressing(Fields(), node, defaultLen)
    {
      if entries != [] {
        if selector.None? {
          return Err(Invalid("node " + node + " provides <Selected> addresses without <pSelected>"));
        }
        var table: SelectorTable := [];
        for i := 0 to |entries|
          invariant TableOf(node, entries[..i], length, defaultLen) == Ok(table)
        {
          var entry := entries[i];
          assert entries[..i + 1][..i] == entries[..i];
          var len := OrElse(OrElse(entry.len, length), defaultLen);
          if len.None? {
            TableErrorSticks(node, entries, length, defaultLen, i + 1);
            return Err(Invalid("node " + node + " is missing <Length> for selector value " + entry.value));
          }
          table := Upsert(table, entry.value, (entry.address, len.value));
        }
        assert entries[..|entries|] == entries;
        return Ok(BySelector(selector.value, table));
      }
      var len := OrElse(length, defaultLen);
      if len.None? {
        return Err(Invalid("node " + node + " is missing <Length>"));
      }
      if pAddressNode.Some? {
        return Ok(Indirect(pAddressNode.value, len.value));
      }
      if fixedAddress.None? {
        return Err(Invalid("node " + node + " is missing <Address>"));
      }
      r := Ok(Fixed(fixedAddress.value, len.value));
    }
  }

  // -------------------------------------------------------------------
  // Bitfields.

  /** Which kind of child first described the bitfield. */
  datatype BitfieldSource = LsbMsb | BitLength | Mask

  /** The seven fields of `BitfieldBuilder`, as one value. */
  datatype BitfieldFields = BitfieldFields(
    lsb: Option<u32>,
    msb: Option<u32>,
    bit: Option<u32>,
    bitLength: Option<u32>,
    mask: Option<u64>,
    byteOrder: Option<ByteOrder>,
    source: Option<BitfieldSource>)

  /** First source wins: only the children of the recorded source are ever kept. */
  predicate FirstSourceOnly(f: BitfieldFields)
  {
    && (f.source != Some(LsbMsb) ==> f.lsb.None? && f.msb.None?)
    && (f.source != Some(BitLength) ==> f.bit.None? && f.bitLength.None?)
    && (f.source != Some(Mask) ==> f.mask.None?)
    && (f.source == Some(Mask) ==> f.mask.Some?)
  }

  /** `u64::trailing_zeros` of a non-zero value: the position of its lowest set bit. */
  function TrailingZeros(m: nat): (r: nat)
    requires m > 0
    ensures m % Pow2(r) == 0 && (m / Pow2(r)) % 2 == 1
  {
    if m % 2 == 1 then 0
    else
      var t := TrailingZeros(m / 2);
      DivDiv(m, 2, Pow2(t));
      t + 1
  }

  /** `u64::count_ones`. */
  function CountOnes(m: nat): nat
  {
    if m == 0 then 0 else m % 2 + CountOnes(m / 2)
  }

  /** A run of `len` ones starting at bit `off` has `off` trailing zeros and `len` ones. */
  lemma {:induction false} ContiguousMask(off: nat, len: nat)
    requires len >= 1
    ensures (Pow2(len) - 1) * Pow2(off) > 0
    ensures TrailingZeros((Pow2(len) - 1) * Pow2(off)) == off
    ensures CountOnes((Pow2(len) - 1) * Pow2(off)) == len
  {
    OnesRun(len);
    var q := Pow2(len) - 1;
    if off == 0 {
      assert q * Pow2(off) == q;
    } else {
      ContiguousMask(off - 1, len);
      var h := q * Pow2(off - 1);
      assert q * Pow2(off) == 2 * h by {
        assert Pow2(off) == 2 * Pow2(off - 1);
        MulAssoc(q, 2, Pow2(off - 1));
      }
      DoubleHalves(h);
    }
  }

  lemma DoubleHalves(h: nat)
    requires h > 0
    ensures (2 * h) % 2 == 0 && (2 * h) / 2 == h
    ensures TrailingZeros(2 * h) == TrailingZeros(h) + 1 && CountOnes(2 * h) == CountOnes(h)
  {
  }

  /** 2^len - 1 is odd and has exactly `len` ones. */
  lemma {:induction false} OnesRun(len: nat)
    requires len >= 1
    ensures (Pow2(len) - 1) % 2 == 1
    ensures CountOnes(Pow2(len) - 1) == len
  {
    if len > 1 {
      OnesRun(len - 1);
      assert Pow2(len) - 1 == 2 * (Pow2(len - 1) - 1) + 1;
    }
  }

  /** `unique_len`: every register length must be non-zero and all must agree; the first violation is reported. */
  function UniqueLength(node: string, lengths: seq<u32>, unique: Option<u32>): (r: Result<Option<u32>, XmlError>)
    ensures r.Ok? && lengths != [] ==> r.value.Some?
  {
    if |lengths| == 0 then Ok(unique)
    else if lengths[0] == 0 then Err(Invalid("node " + node + " declares zero-length register"))
    else if unique.Some? && unique.value != lengths[0] then Err(Invalid("node " + node + " uses inconsistent register lengths"))
    else UniqueLength(node, lengths[1..], Some(lengths[0]))
  }

  /** Once a length has been seen, the scan succeeds exactly when every remaining one equals it. */
  lemma {:induction false} UniqueLengthAgreed(node: string, lengths: seq<u32>, u: u32)
    requires u != 0
    ensures UniqueLength(node, lengths, Some(u)).Ok? <==> forall i :: 0 <= i < |lengths| ==> lengths[i] == u
    ensures UniqueLength(node, lengths, Some(u)).Ok? ==> UniqueLength(node, lengths, Some(u)) == Ok(Some(u))
  {
    if |lengths| > 0 {
      UniqueLengthAgreed(node, lengths[1..], u);
      assert forall i :: 1 <= i < |lengths| ==> lengths[1..][i - 1] == lengths[i];
    }
  }

  /** The register lengths pass exactly when they are one and the same non-zero length. */
  lemma RegisterLengthsAgree(node: string, lengths: seq<u32>)
    requires |lengths| > 0
    ensures UniqueLength(node, lengths, None).Ok? <==>
      lengths[0] != 0 && forall i :: 0 <= i < |lengths| ==> lengths[i] == lengths[0]
    ensures UniqueLength(node, lengths, None).Ok? ==> UniqueLength(node, lengths, None) == Ok(Some(lengths[0]))
  {
    if lengths[0] != 0 {
      UniqueLengthAgreed(node, lengths[1..], lengths[0]);
      assert forall i :: 1 <= i < |lengths| ==> lengths[1..][i - 1] == lengths[i];
    }
  }

  function MaxNat(a: nat, b: nat): nat { if a < b then b else a }

  /** `Lsb`/`Msb`: the lower bit and the length up to the upper bit, in either order. */
  function RangeExtent(f: BitfieldFields, node: string): (r: Result<(nat, nat), XmlError>)
    ensures r.Ok? ==>
      && f.lsb.Some? && f.msb.Some?
      && r.value.0 == MinNat(f.lsb.value, f.msb.value)
      && r.value.0 + r.value.1 == MaxNat(f.lsb.value, f.msb.value) + 1
  {
    if f.lsb.None? then Err(Invalid("node " + node + " is missing <Lsb>"))
    else if f.msb.None? then Err(Invalid("node " + node + " is missing <Msb>"))
    else
      var lsb, msb := f.lsb.value, f.msb.value;
      var lower, upper := MinNat(lsb, msb), MaxNat(lsb, msb);
      var length: nat := upper - lower + 1;
      if length > U32_MAX then
        Err(Invalid("node " + node + " has invalid bit range <Lsb>=" + NatToDecimal(lsb) + ", <Msb>=" + NatToDecimal(msb)))
      else Ok((lower, length))
  }

  /** `Mask`: its trailing zeros and its count of ones; a zero mask is an error. */
  function MaskExtent(f: BitfieldFields, node: string): (r: Result<(nat, nat), XmlError>)
    ensures r.Ok? ==>
      && f.mask.Some? && f.mask.value != 0
      && r.value == (TrailingZeros(f.mask.value), CountOnes(f.mask.value))
    ensures f.mask == Some(0) ==> r == Err(Invalid("node " + node + " mask must be non-zero"))
  {
    if f.mask.None? then Err(Invalid("node " + node + " is missing <Mask> value"))
    else if f.mask.value == 0 then Err(Invalid("node " + node + " mask must be non-zero"))
    else Ok((TrailingZeros(f.mask.value), CountOnes(f.mask.value)))
  }

  /** The least-significant bit and the length the recorded source describes. */
  function Extent(f: BitfieldFields, source: BitfieldSource, node: string): (r: Result<(nat, nat), XmlError>)
    ensures r.Ok? && source == BitLength ==> f.bit == Some(r.value.0) && r.value.1 == f.bitLength.UnwrapOr(1)
  {
    match source
    case LsbMsb => RangeExtent(f, node)
    case BitLength =>
      if f.bit.None? then Err(Invalid("node " + node + " is missing <Bit>"))
      else Ok((f.bit.value, f.bitLength.UnwrapOr(1)))
    case Mask => MaskExtent(f, node)
  }

  /**
   * The checks on the extent and the conversion of the offset: big-endian
   * fields count their offset from the most significant end of the register.
   */
  function PlaceField(node: string, totalBits: nat, offsetLsb: nat, bitLength: nat, order: ByteOrder)
    : (r: Result<BitField, XmlError>)
    ensures r.Ok? <==>
      && 1 <= bitLength <= 64 && offsetLsb <= U16_MAX && offsetLsb + bitLength <= totalBits
      && (order == Big ==> totalBits - bitLength - offsetLsb <= U16_MAX)
    ensures r.Ok? ==>
      && r.value.bitLength == bitLength && r.value.byteOrder == order
      && r.value.bitOffset + r.value.bitLength <= totalBits
    ensures r.Ok? && order == Little ==> r.value.bitOffset == offsetLsb
    ensures r.Ok? && order == Big ==> r.value.bitOffset + bitLength + offsetLsb == totalBits
  {
    if bitLength == 0 then Err(Invalid("node " + node + " bitfield must have positive length"))
    else if bitLength > 64 then
      Err(Invalid("node " + node + " bitfield length " + NatToDecimal(bitLength) + " exceeds 64 bits"))
    else if offsetLsb > U16_MAX then
      Err(Invalid("node " + node + " bit offset " + NatToDecimal(offsetLsb) + " exceeds u16 range"))
    else if bitLength > U16_MAX then
      Err(Invalid("node " + node + " bit length " + NatToDecimal(bitLength) + " exceeds u16 range"))
    else if offsetLsb + bitLength > totalBits then Err(Invalid("node " + node + " bitfield exceeds register width"))
    else
      var offset: nat := match order
        case Little => offsetLsb
        case Big => totalBits - bitLength - offsetLsb;
      if offset > U16_MAX then
        Err(Invalid("node " + node + " bit offset " + NatToDecimal(offset) + " exceeds u16 range"))
      else Ok(BitField(offset, bitLength, order))
  }

  /**
   * `finish`: no source means no bitfield; otherwise the register lengths
   * must agree, and the extent of the source is checked and placed, the byte
   * order defaulting to little-endian.
   */
  function ResolveBitfield(f: BitfieldFields, node: string, lengths: seq<u32>): (r: Result<Option<BitField>, XmlError>)
    ensures f.source.None? ==> r == Ok(None)
    ensures f.source.Some? && lengths == [] ==>
      r == Err(Invalid("node " + node + " is missing register length information"))
    ensures r.Ok? && r.value.Some? ==> r.value.value.byteOrder == f.byteOrder.UnwrapOr(Little)
  {
    match f.source
    case None => Ok(None)
    case Some(source) =>
      var order := f.byteOrder.UnwrapOr(Little);
      if |lengths| == 0 then Err(Invalid("node " + node + " is missing register length information"))
      else
        match UniqueLength(node, lengths, None)
        case Err(e) => Err(e)
        case Ok(unique) =>
          var lenBytes: nat := unique.UnwrapOr(0);
          if lenBytes * 8 > U32_MAX then Err(Invalid("node " + node + " register length overflow"))
          else
            match Extent(f, source, node)
            case Err(e) => Err(e)
            case Ok(extent) =>
              match PlaceField(node, lenBytes * 8, extent.0, extent.1, order)
              case Err(e) => Err(e)
              case Ok(field) => Ok(Some(field))
  }

  /** A resolved field lies inside the agreed register length, so `validate_range` accepts it. */
  lemma FinishedFieldFits(f: BitfieldFields, node: string, lengths: seq<u32>, bf: BitField)
    requires ResolveBitfield(f, node, lengths) == Ok(Some(bf))
    ensures |lengths| > 0 && lengths[0] != 0 && forall i :: 0 <= i < |lengths| ==> lengths[i] == lengths[0]
    ensures 1 <= bf.bitLength <= 64 && bf.bitOffset + bf.bitLength <= 8 * (lengths[0] as int)
    ensures lengths[0] <= 8 ==> BitOps.InRange(lengths[0], bf)
  {
    RegisterLengthsAgree(node, lengths);
  }

  /** `<Lsb>8</Lsb><Msb>15</Msb>` big-endian in a 4-byte register is offset 16, length 8. */
  lemma BigEndianLsbMsbExample(node: string)
    ensures ResolveBitfield(BitfieldFields(Some(8), Some(15), None, None, None, Some(Big), Some(LsbMsb)), node, [4])
         == Ok(Some(BitField(16, 8, Big)))
  {
    RegisterLengthsAgree(node, [4]);
  }

  /** `<Bit>3</Bit>` alone in a 1-byte register is offset 3, length 1, little-endian. */
  lemma BitDefaultLengthExample(node: string)
    ensures ResolveBitfield(BitfieldFields(None, None, Some(3), None, None, None, Some(BitLength)), node, [1])
         == Ok(Some(BitField(3, 1, Little)))
  {
    RegisterLengthsAgree(node, [1]);
  }

  /** `<Mask>0x0000FF00</Mask>` in a 4-byte register is offset 8, length 8. */
  lemma MaskExample(node: string)
    ensures ResolveBitfield(BitfieldFields(None, None, None, None, Some(0xFF00), None, Some(Mask)), node, [4])
         == Ok(Some(BitField(8, 8, Little)))
  {
    var f := BitfieldFields(None, None, None, None, Some(0xFF00), None, Some(Mask));
    RegisterLengthsAgree(node, [4]);
    assert UniqueLength(node, [4], None) == Ok(Some(4));
    assert TrailingZeros(0xFF00) == 8 && CountOnes(0xFF00) == 8 by {
      ContiguousMask(8, 8);
      Pow2Of8();
    }
    assert Extent(f, Mask, node) == Ok((8, 8));
    assert PlaceField(node, 32, 8, 8, Little) == Ok(BitField(8, 8, Little));
  }

  /** Whether a builder whose recorded source is `source` still takes children of kind `kind`. */
  predicate Admits(source: Option<BitfieldSource>, kind: BitfieldSource)
  {
    source.None? || source == Some(kind)
  }

  /** `BitfieldBuilder`: the bitfield children of one node, collected in document order. */
  class BitfieldBuilder {
    var lsb: Option<u32>
    var msb: Option<u32>
    var bit: Option<u32>
    var bitLength: Option<u32>
    var mask: Option<u64>
    var byteOrder: Option<ByteOrder>
    var source: Option<BitfieldSource>

    function Fields(): BitfieldFields
      reads this
    {
      BitfieldFields(lsb, msb, bit, bitLength, mask, byteOrder, source)
    }

    ghost predicate Valid()
      reads this
    {
      FirstSourceOnly(Fields())
    }

    /** `BitfieldBuilder::default()`. */
    constructor ()
      ensures Fields() == BitfieldFields(None, None, None, None, None, None, None)
      ensures Valid()
    {
      lsb, msb, bit, bitLength := None, None, None, None;
      mask, byteOrder, source := None, None, None;
    }

    method NoteLsb(value: u32)
      requires Valid()
      modifies this
      ensures Valid()
      ensures Admits(old(source), LsbMsb) ==> Fields() == old(Fields()).(lsb := Some(value), source := Some(LsbMsb))
      ensures !Admits(old(source), LsbMsb) ==> Fields() == old(Fields())
    {
      if source.Some? && source.value != LsbMsb {
        return;
      }
      source := Some(LsbMsb);
      lsb := Some(value);
    }

    method NoteMsb(value: u32)
      requires Valid()
      modifies this
      ensures Valid()
      ensures Admits(old(source), LsbMsb) ==> Fields() == old(Fields()).(msb := Some(value), source := Some(LsbMsb))
      ensures !Admits(old(source), LsbMsb) ==> Fields() == old(Fields())
    {
      if source.Some? && source.value != LsbMsb {
        return;
      }
      source := Some(LsbMsb);
      msb := Some(value);
    }

    method NoteBit(value: u32)
      requires Valid()
      modifies this
      ensures Valid()
      ensures Admits(old(source), BitLength) ==> Fields() == old(Fields()).(bit := Some(value), source := Some(BitLength))
      ensures !Admits(old(source), BitLength) ==> Fields() == old(Fields())
    {
      if source.Some? && source.value != BitLength {
        return;
      }
      source := Some(BitLength);
      bit := Some(value);
    }

    method NoteBitLength(value: u32)
      requires Valid()
      modifies this
      ensures Valid()
      ensures Admits(old(source), BitLength) ==> Fields() == old(Fields()).(bitLength := Some(value), source := Some(BitLength))
      ensures !Admits(old(source), BitLength) ==> Fields() == old(Fields())
    {
      if source.Some? && source.value != BitLength {
        return;
      }
      source := Some(BitLength);
      bitLength := Some(value);
    }

    /** A mask is taken only while no source has been recorded, and ignored otherwise. */
    method NoteMask(value: u64)
      requires Valid()
      modifies this
      ensures Valid()
      ensures old(source).None? ==> Fields() == old(Fields()).(mask := Some(value), source := Some(Mask))
      ensures old(source).Some? ==> Fields() == old(Fields())
    {
      if source.Some? {
        return;
      }
      source := Some(Mask);
      mask := Some(value);
    }

    /** The byte order is taken whatever the source, the last one winning. */
    method NoteByteOrder(order: ByteOrder)
      requires Valid()
      modifies this
      ensures Valid() && Fields() == old(Fields()).(byteOrder := Some(order))
    {
      byteOrder := Some(order);
    }

    /** `finish`, scanning the register lengths one by one. */
    method Finish(node: string, lengths: seq<u32>) returns (r: Result<Option<BitField>, XmlError>)
      ensures r == ResolveBitfield(Fields(), node, lengths)
    {
      if source.None? {
        return Ok(None);
      }
      var order := byteOrder.UnwrapOr(Little);
      if |lengths| == 0 {
        return Err(Invalid("node " + node + " is missing register length information"));
      }
      var unique: Option<u32> := None;
      for i := 0 to |lengths|
        invariant UniqueLength(node, lengths, None) == UniqueLength(node, lengths[i..], unique)
        invariant i > 0 ==> unique.Some?
      {
        assert lengths[i..][1..] == lengths[i + 1..];
        if lengths[i] == 0 {
          return Err(Invalid("node " + node + " declares zero-length register"));
        }
        if unique.Some? && unique.value != lengths[i] {
          return Err(Invalid("node " + node + " uses inconsistent register lengths"));
        }
        unique := Some(lengths[i]);
      }
      assert lengths[|lengths|..] == [];
      var lenBytes: nat := unique.UnwrapOr(0);
      if lenBytes * 8 > U32_MAX {
        return Err(Invalid("node " + node + " register length overflow"));
      }
      var extent := Extent(Fields(), source.value, node);
      if extent.Err? {
        return Err(extent.error);
      }
      var field := PlaceField(node, lenBytes * 8, extent.value.0, extent.value.1, order);
      if field.Err? {
        return Err(field.error);
      }
      r := Ok(Some(field.value));
    }
  }
}
