/** Message descriptors: the information about each field packed into one, two, four or eight words, and the
    iterator that walks and searches it. */
module Fields {
  import opened Arith
  import opened Bits

  /** Number, type code, place and size of the data, place of the count, and array length. */
  datatype Field = Field(tag: nat, kind: nat, dataOffset: nat, dataSize: nat, sizeOffset: nat, arraySize: nat)

  /** A field and the number of words it is packed into. */
  datatype Entry = Entry(field: Field, width: nat)

  /** What the generated static assertions check. */
  predicate Fits(e: Entry) {
    var f := e.field;
    && f.kind < 256
    && match e.width
       case 1 => f.tag < 64 && f.dataOffset < 256 && f.dataSize < 16 && f.sizeOffset < 16 && f.arraySize == 1
       case 2 => f.tag < 1024 && f.dataOffset < 0x10000 && f.dataSize < 4096 && f.sizeOffset < 16 && f.arraySize < 4096
       case 4 => f.tag < 0x10000 && f.dataOffset < WORD && f.dataSize < 0x10000 && f.sizeOffset < 128
                 && f.arraySize < 0x10000
       case 8 => f.tag < 0x10000 && f.dataOffset < WORD && f.dataSize < 0x10000 && f.sizeOffset < 128
                 && f.arraySize < 0x10000
       case _ => false
  }

  /** The low sixteen bits of the first word: the width code, the low bits of the tag, the type. */
  function Low(code: nat, f: Field): nat {
    code + 4 * (f.tag % 64 + 64 * f.kind)
  }

  /** PB_FIELDINFO_1, _2, _4 and _8 */
  function Pack(e: Entry): (s: seq<uint32>)
    requires Fits(e)
    ensures |s| == e.width > 0
  {
    var f := e.field;
    match e.width
    case 1 => [Low(0, f) + 0x10000 * (f.dataOffset + 0x100 * (f.sizeOffset + 0x10 * f.dataSize))]
    case 2 => [Low(1, f) + 0x10000 * (f.arraySize + 0x1000 * f.sizeOffset),
               f.dataOffset + 0x10000 * (f.dataSize + 0x1000 * (f.tag / 64))]
    case 4 => [Low(2, f) + 0x10000 * f.arraySize, f.sizeOffset + 0x100 * (f.tag / 64), f.dataOffset, f.dataSize]
    case _ => [Low(3, f), f.sizeOffset + 0x100 * (f.tag / 64), f.dataOffset, f.dataSize, f.arraySize, 0, 0, 0]
  }

  /** The digit above m, read modulo n. */
  lemma Extract(lo: nat, d: nat, hi: nat, m: nat, n: nat)
    requires lo < m && d < n
    ensures var w := lo + m * (d + n * hi); w % m == lo && w / m == d + n * hi && (w / m) % n == d
  {
    DivModUnique(lo + m * (d + n * hi), m, d + n * hi, lo);
    DivModUnique(d + n * hi, n, hi, d);
  }

  /** The width code, the low bits of the tag and the type, whatever is above. */
  lemma LowParts(code: nat, f: Field, hi: nat)
    requires code < 4 && f.kind < 256
    ensures var w := Low(code, f) + 0x10000 * hi;
      w % 4 == code && (w / 4) % 64 == f.tag % 64 && (w / 0x100) % 0x100 == f.kind && w / 0x10000 == hi
  {
    var w := Low(code, f) + 0x10000 * hi;
    Extract(code, f.tag % 64, f.kind + 256 * hi, 4, 64);
    Extract(code + 4 * (f.tag % 64), f.kind, hi, 256, 256);
    DivModUnique(w, 0x10000, hi, Low(code, f));
  }

  /** The tag is put together from its low six bits and the rest. */
  lemma JoinTag(tag: nat)
    ensures Or(tag / 64 * 64, tag % 64) == tag
  {
    assert Pow(2, 6) == 64;
    OrIsSum(tag / 64, tag % 64, 6);
  }

  // ---- descriptors -----------------------------------------------------------------------

  predicate AllFit(es: seq<Entry>) {
    forall i :: 0 <= i < |es| ==> Fits(es[i])
  }

  ghost function Packed(es: seq<Entry>): seq<uint32>
    requires AllFit(es)
  {
    if |es| == 0 then [] else Packed(es[..|es| - 1]) + Pack(es[|es| - 1])
  }

  /** Where entry i starts. */
  ghost function Start(es: seq<Entry>, i: nat): nat
    requires AllFit(es) && i <= |es|
  {
    |Packed(es[..i])|
  }

  /** Each entry is found at its start, and the next one right behind it. */
  lemma {:induction false} EntryAt(es: seq<Entry>, i: nat)
    requires AllFit(es) && i < |es|
    ensures Start(es, i + 1) == Start(es, i) + es[i].width <= |Packed(es)|
    ensures Packed(es)[Start(es, i)..Start(es, i + 1)] == Pack(es[i])
    decreases |es|
  {
    hide Pack, Fits;
    var n := |es| - 1;
    assert es[..i + 1][..i] == es[..i];
    if i < n {
      EntryAt(es[..n], i);
      assert es[..n][..i] == es[..i] && es[..n][..i + 1] == es[..i + 1];
    } else {
      assert es[..i + 1] == es;
    }
  }

  /** Word k of entry i. */
  lemma WordAt(es: seq<Entry>, i: nat, k: nat)
    requires AllFit(es) && i < |es| && k < es[i].width
    ensures Start(es, i) + k < |Packed(es)| && Packed(es)[Start(es, i) + k] == Pack(es[i])[k]
  {
    hide Pack, Fits;
    EntryAt(es, i);
    assert Packed(es)[Start(es, i)..Start(es, i + 1)][k] == Packed(es)[Start(es, i) + k];
  }

  /** Tags grow from field to field. */
  predicate TagsIncrease(es: seq<Entry>) {
    forall i, j :: 0 <= i < j < |es| ==> es[i].field.tag < es[j].field.tag
  }

  ghost predicate HasTag(es: seq<Entry>, tag: nat) {
    exists i :: 0 <= i < |es| && es[i].field.tag == tag
  }

  const EXTENSION := 10

  class FieldIter {
    const fieldInfo: seq<uint32>
    const fieldCount: nat
    const largestTag: nat
    ghost const entries: seq<Entry>
    var index: nat
    var fieldInfoIndex: nat
    var field: Field

    /** The words are those of the entries, with a zero behind them. */
    ghost predicate Described()
    {
      && AllFit(entries) && fieldInfo == Packed(entries) + [0] && TagsIncrease(entries)
      && fieldCount == |entries| > 0 && largestTag == entries[fieldCount - 1].field.tag
      && forall i :: 0 <= i < |entries| ==> entries[i].field.kind % 16 != EXTENSION
    }

    /** The word index belongs to the field index. */
    ghost predicate Placed()
      requires Described()
      reads this
    {
      index < fieldCount && fieldInfoIndex == Start(entries, index)
    }

    ghost predicate Valid()
      reads this
    {
      Described() && Placed() && field == entries[index].field
    }

    /** pb_field_iter_begin */
    constructor (ghost entries: seq<Entry>, fieldInfo: seq<uint32>, fieldCount: nat, largestTag: nat)
      requires AllFit(entries) && fieldInfo == Packed(entries) + [0] && TagsIncrease(entries)
      requires fieldCount == |entries| > 0 && largestTag == entries[fieldCount - 1].field.tag
      requires forall i :: 0 <= i < |entries| ==> entries[i].field.kind % 16 != EXTENSION
      ensures Valid() && index == 0 && this.entries == entries
    {
      this.entries, this.fieldInfo, this.fieldCount, this.largestTag := entries, fieldInfo, fieldCount, largestTag;
      index, fieldInfoIndex, field := 0, 0, Field(0, 0, 0, 0, 0, 0);
      new;
      assert entries[..0] == [];
      Load();
    }

    /** A word of the current entry. */
    lemma CurrentWord(k: nat)
      requires Described() && Placed() && k < entries[index].width
      ensures fieldInfoIndex + k < |fieldInfo| && fieldInfo[fieldInfoIndex + k] == Pack(entries[index])[k]
    {
      hide Pack, Packed, Fits, TagsIncrease;
      WordAt(entries, index, k);
    }

    /** load_descriptor_values: unpacks the current entry. */
    method Load()
      requires Described() && Placed()
      modifies this`field
      ensures Valid()
    {
      ghost var f, width := entries[index].field, entries[index].width;
      assert Fits(entries[index]) && entries[index] == Entry(f, width);
      CurrentWord(0);
      FirstWord(entries[index]);
      var word0 := fieldInfo[fieldInfoIndex];
      var kind := (word0 / 0x100) % 0x100;
      match word0 % 4
      case 0 => LoadOne(word0, kind, f);
      case 1 => LoadTwo(word0, kind, f);
      case 2 => LoadFour(word0, kind, f);
      case _ => LoadEight(word0, kind, f);
    }

    method LoadOne(word0: uint32, kind: nat, ghost f: Field)
      requires Fits(Entry(f, 1)) && word0 == Pack(Entry(f, 1))[0] && kind == f.kind
      modifies this`field
      ensures field == f
    {
      hide Pack;
      OneWord(f);
      field := Field((word0 / 4) % 64, kind, (word0 / 0x10000) % 0x100, (word0 / 0x1000_0000) % 0x10,
                     (word0 / 0x100_0000) % 0x10, 1);
    }

    method LoadTwo(word0: uint32, kind: nat, ghost f: Field)
      requires Described() && Placed() && entries[index] == Entry(f, 2) && Fits(Entry(f, 2))
      requires word0 == Pack(Entry(f, 2))[0] && (word0 / 4) % 64 == f.tag % 64 && kind == f.kind
      modifies this`field
      ensures field == f
    {
      hide Pack, Packed, Or, TagsIncrease;
      CurrentWord(1);
      JoinTag(f.tag);
      TwoWords(f);
      var word1 := fieldInfo[fieldInfoIndex + 1];
      field := Field(Or(word1 / 0x1000_0000 * 64, (word0 / 4) % 64), kind, word1 % 0x10000, (word1 / 0x10000) % 0x1000,
                     (word0 / 0x1000_0000) % 0x10, (word0 / 0x10000) % 0x1000);
    }

    method LoadFour(word0: uint32, kind: nat, ghost f: Field)
      requires Described() && Placed() && entries[index] == Entry(f, 4) && Fits(Entry(f, 4))
      requires word0 == Pack(Entry(f, 4))[0] && (word0 / 4) % 64 == f.tag % 64 && kind == f.kind
      modifies this`field
      ensures field == f
    {
      hide Packed, Or, TagsIncrease, Low;
      CurrentWord(1);
      CurrentWord(2);
      CurrentWord(3);
      JoinTag(f.tag);
      SecondWord(f);
      var word1, word2, word3 :=
        fieldInfo[fieldInfoIndex + 1], fieldInfo[fieldInfoIndex + 2], fieldInfo[fieldInfoIndex + 3];
      field := Field(Or(word1 / 0x100 * 64, (word0 / 4) % 64), kind, word2, word3 % 0x10000, word1 % 0x100,
                     word0 / 0x10000);
    }

    method LoadEight(word0: uint32, kind: nat, ghost f: Field)
      requires Described() && Placed() && entries[index] == Entry(f, 8) && Fits(Entry(f, 8))
      requires (word0 / 4) % 64 == f.tag % 64 && kind == f.kind
      modifies this`field
      ensures field == f
    {
      hide Packed, Or, TagsIncrease, Low;
      CurrentWord(1);
      CurrentWord(2);
      CurrentWord(3);
      CurrentWord(4);
      JoinTag(f.tag);
      SecondWord(f);
      var word1, word2, word3, word4 := fieldInfo[fieldInfoIndex + 1], fieldInfo[fieldInfoIndex + 2],
                                        fieldInfo[fieldInfoIndex + 3], fieldInfo[fieldInfoIndex + 4];
      field := Field(Or(word1 / 0x100 * 64, (word0 / 4) % 64), kind, word2, word3 % 0x10000, word1 % 0x100,
                     word4 % 0x10000);
    }

    /** advance_iterator: to the next entry, or back to the first. */
    method Advance()
      requires Described() && (Placed() || index == fieldCount)
      modifies this`index, this`fieldInfoIndex
      ensures Placed() && index == if old(index) + 1 < fieldCount then old(index) + 1 else 0
    {
      hide Pack, TagsIncrease;
      index := index + 1;
      if index >= fieldCount {
        index, fieldInfoIndex := 0, 0;
        assert entries[..0] == [];
      } else {
        ghost var e := entries[index - 1];
        WordAt(entries, index - 1, 0);
        EntryAt(entries, index - 1);
        FirstWord(e);
        var prev := fieldInfo[fieldInfoIndex];
        var code := prev % 4;
        fieldInfoIndex :=
          fieldInfoIndex + (if code == 0 then 1 else if code == 1 then 2 else if code == 2 then 4 else 8);
      }
    }

    /** pb_field_iter_next: false when it has come round to the first field. */
    method Next() returns (more: bool)
      requires Valid()
      modifies this
      ensures Valid() && index == (if old(index) + 1 < fieldCount then old(index) + 1 else 0) && (more <==> index != 0)
    {
      Advance();
      Load();
      more := index != 0;
    }

    /** pb_field_iter_find: from wherever it stands, the iterator ends on the field with the tag, if there is one, and
        otherwise where it stood. */
    method Find(tag: uint32) returns (found: bool)
      requires Valid()
      modifies this
      ensures Valid() && (found <==> HasTag(entries, tag))
      ensures found ==> field.tag == tag
      ensures !found ==> index == old(index)
    {
      hide Packed, Start;
      if field.tag == tag {
        return true;
      }
      if tag > largestTag {
        return false;
      }
      var start := index;
      if tag < field.tag {
        index := fieldCount;
      }
      while true
        invariant Described() && (Placed() || index == fieldCount) && start < fieldCount
        invariant index == start || Searched(start, index, tag)
        decreases Remaining(start, index)
      {
        ghost var last := index;
        Advance();
        CurrentWord(0);
        FirstWord(entries[index]);
        var info := fieldInfo[fieldInfoIndex];
        if (info / 4) % 64 == tag % 64 {
          Load();
          if field.tag == tag && field.kind % 16 != EXTENSION {
            return true;
          }
        }
        NotHere(start, last, tag);
        if index == start { break; }
      }
      Load();
      return false;
    }

    /** The fields still to be looked at. */
    ghost function Remaining(start: nat, index: nat): int {
      if index == fieldCount then 2 * fieldCount
      else if index >= start then 2 * fieldCount - index
      else fieldCount - index
    }

    /** No field behind the start and up to the index, wrapping around, has the tag. */
    ghost predicate Searched(start: nat, index: nat, tag: nat)
      requires Described() && start < fieldCount
    {
      if index == fieldCount then tag < entries[start].field.tag
      else
        forall i :: 0 <= i < fieldCount && (if index > start then start < i <= index else i > start || i <= index) ==>
          entries[i].field.tag != tag
    }

    /** One more field without the tag; after the last one the search is complete. */
    lemma NotHere(start: nat, last: nat, tag: nat)
      requires Described() && Placed() && start < fieldCount && last <= fieldCount
      requires last == start || Searched(start, last, tag)
      requires index == (if last + 1 < fieldCount then last + 1 else 0) && entries[index].field.tag != tag
      ensures Searched(start, index, tag)
      ensures index == start ==> !HasTag(entries, tag)
      ensures index != start ==> Remaining(start, index) < Remaining(start, last)
    {
      hide Fits, Packed, Start;
    }
  }

  lemma FirstWord(e: Entry)
    requires Fits(e)
    ensures var w := Pack(e)[0];
      && w % 4 == (if e.width == 1 then 0 else if e.width == 2 then 1 else if e.width == 4 then 2 else 3)
      && (w / 4) % 64 == e.field.tag % 64 && (w / 0x100) % 0x100 == e.field.kind
  {
    var f := e.field;
    match e.width
    case 1 => LowParts(0, f, f.dataOffset + 0x100 * (f.sizeOffset + 0x10 * f.dataSize));
    case 2 => LowParts(1, f, f.arraySize + 0x1000 * f.sizeOffset);
    case 4 => LowParts(2, f, f.arraySize);
    case _ => LowParts(3, f, 0);
  }

  lemma OneWord(f: Field)
    requires Fits(Entry(f, 1))
    ensures var w := Pack(Entry(f, 1))[0];
      && (w / 4) % 64 == f.tag && (w / 0x10000) % 0x100 == f.dataOffset
      && (w / 0x100_0000) % 0x10 == f.sizeOffset && (w / 0x1000_0000) % 0x10 == f.dataSize
  {
    var w := Pack(Entry(f, 1))[0];
    var low := Low(0, f);
    LowParts(0, f, f.dataOffset + 0x100 * (f.sizeOffset + 0x10 * f.dataSize));
    Extract(f.dataOffset, f.sizeOffset, f.dataSize, 0x100, 0x10);
    Extract(low + 0x10000 * f.dataOffset, f.sizeOffset, f.dataSize, 0x100_0000, 0x10);
    Extract(low + 0x10000 * f.dataOffset + 0x100_0000 * f.sizeOffset, f.dataSize, 0, 0x1000_0000, 0x10);
  }

  lemma TwoWords(f: Field)
    requires Fits(Entry(f, 2))
    ensures var w := Pack(Entry(f, 2))[0];
      (w / 0x10000) % 0x1000 == f.arraySize && (w / 0x1000_0000) % 0x10 == f.sizeOffset
    ensures var w := Pack(Entry(f, 2))[1];
      w % 0x10000 == f.dataOffset && (w / 0x10000) % 0x1000 == f.dataSize && w / 0x1000_0000 == f.tag / 64
  {
    LowParts(1, f, f.arraySize + 0x1000 * f.sizeOffset);
    Extract(f.arraySize, f.sizeOffset, 0, 0x1000, 0x10);
    Extract(Low(1, f) + 0x10000 * f.arraySize, f.sizeOffset, 0, 0x1000_0000, 0x10);
    Extract(f.dataOffset, f.dataSize, f.tag / 64, 0x10000, 0x1000);
    Extract(f.dataOffset + 0x10000 * f.dataSize, f.tag / 64, 0, 0x1000_0000, 0x10);
  }

  lemma SecondWord(f: Field)
    requires f.kind < 256 && f.sizeOffset < 128 && f.arraySize < 0x10000 && f.tag < 0x10000
    ensures (Low(2, f) + 0x10000 * f.arraySize) / 0x10000 == f.arraySize
    ensures var w := f.sizeOffset + 0x100 * (f.tag / 64); w % 0x100 == f.sizeOffset && w / 0x100 == f.tag / 64
  {
    LowParts(2, f, f.arraySize);
    DivModUnique(f.sizeOffset + 0x100 * (f.tag / 64), 0x100, f.tag / 64, f.sizeOffset);
  }
}
