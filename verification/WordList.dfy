/**
  Lists of four-byte items that are checked, one after the other, while they are read: the offsets
  and tags of a header and the version lists.
*/
module WordLists {
  import opened Wrappers
  import opened Primitives
  import opened Cursors

  function Quad(n: nat): nat { n + n + n + n }

  /** How one item is printed, read, and checked against the items read before it. */
  datatype Codec<!T> = Codec(put: T -> Bytes, take: Bytes -> Parse<T>, check: (seq<T>, T) -> Result<(), Error>)

  function Print<T>(codec: Codec<T>, items: seq<T>): Bytes {
    if items == [] then [] else codec.put(items[0]) + Print(codec, items[1..])
  }

  /** Read items until there are `count`, given those read so far. */
  function Read<T>(codec: Codec<T>, b: Bytes, read: seq<T>, count: nat): Parse<seq<T>>
    decreases count - |read|
  {
    if |read| >= count then Ok((read, b))
    else
      var (item, rest) :- codec.take(b);
      var _ :- codec.check(read, item);
      Read(codec, rest, read + [item], count)
  }

  /** Every item passes its check. */
  ghost predicate Fit<T>(codec: Codec<T>, read: seq<T>, items: seq<T>)
    decreases |items|
  {
    items == [] || (codec.check(read, items[0]).Ok? && Fit(codec, read + [items[0]], items[1..]))
  }

  ghost predicate TakesPrinted<T>(codec: Codec<T>, item: T, rest: Bytes) {
    codec.take(codec.put(item) + rest) == Ok((item, rest))
  }

  ghost predicate Reprints<T>(codec: Codec<T>, b: Bytes) {
    codec.take(b).Ok? ==> b == codec.put(codec.take(b).value.0) + codec.take(b).value.1
  }

  /** Items are four bytes long and reading inverts printing. */
  ghost predicate Sound<T(!new)>(codec: Codec<T>) {
    && (forall item :: |codec.put(item)| == 4)
    && (forall item, rest :: TakesPrinted(codec, item, rest))
  }

  lemma {:induction false} PrintLength<T(!new)>(codec: Codec<T>, items: seq<T>)
    requires forall item :: |codec.put(item)| == 4
    ensures |Print(codec, items)| == Quad(|items|)
  {
    if items != [] {
      PrintLength(codec, items[1..]);
    }
  }

  lemma Concat3(a: Bytes, b: Bytes, c: Bytes)
    ensures (a + b) + c == a + (b + c)
  {
  }

  /** A printed list is read back exactly when every item passes its check. */
  lemma {:induction false} ReadPrinted<T(!new)>(codec: Codec<T>, read: seq<T>, items: seq<T>, count: nat, rest: Bytes)
    requires Sound(codec) && count == |read| + |items|
    ensures var r := Read(codec, Print(codec, items) + rest, read, count);
            if Fit(codec, read, items) then r == Ok((read + items, rest)) else r.Err?
    decreases |items|
  {
    if items == [] {
      assert read + items == read && Print(codec, items) + rest == rest;
    } else {
      var later, longer := items[1..], read + [items[0]];
      var tail := Print(codec, later) + rest;
      Concat3(codec.put(items[0]), Print(codec, later), rest);
      assert TakesPrinted(codec, items[0], tail);
      ReadPrinted(codec, longer, later, count, rest);
      assert longer + later == read + items;
    }
  }

  /** Printing what was read reproduces the bytes, wherever single items do. */
  lemma {:induction false} PrintRead<T>(codec: Codec<T>, b: Bytes, read: seq<T>, count: nat)
    requires |read| <= count && Read(codec, b, read, count).Ok?
    requires forall c :: Reprints(codec, c)
    ensures var (items, rest) := Read(codec, b, read, count).value;
            && |items| == count && items[..|read|] == read
            && Fit(codec, read, items[|read|..])
            && b == Print(codec, items[|read|..]) + rest
    decreases count - |read|
  {
    if |read| < count {
      var (item, tail) := codec.take(b).value;
      assert Reprints(codec, b);
      PrintRead(codec, tail, read + [item], count);
      var (items, rest) := Read(codec, b, read, count).value;
      var added := items[|read|..];
      assert items[..|read| + 1] == read + [item];
      assert items[..|read|] == items[..|read| + 1][..|read|];
      assert added[0] == item && added[1..] == items[|read| + 1..];
      Concat3(codec.put(item), Print(codec, added[1..]), rest);
    }
  }

  // ---- Checks that test each item and its order after the one before ---------------------------

  /** The check of `codec` means: the item is valid and not below the one before. */
  ghost predicate ChecksOrder<T(!new)>(codec: Codec<T>, valid: T -> bool, leq: (T, T) -> bool) {
    forall read, item ::
      codec.check(read, item).Ok? <==> valid(item) && (read == [] || leq(read[|read| - 1], item))
  }

  ghost predicate Transitive<T(!new)>(leq: (T, T) -> bool) {
    forall x, y, z :: leq(x, y) && leq(y, z) ==> leq(x, z)
  }

  ghost predicate InOrder<T>(items: seq<T>, valid: T -> bool, leq: (T, T) -> bool) {
    && (forall i :: 0 <= i < |items| ==> valid(items[i]))
    && (forall i, j :: 0 <= i < j < |items| ==> leq(items[i], items[j]))
  }

  lemma AppendInOrder<T(!new)>(read: seq<T>, item: T, valid: T -> bool, leq: (T, T) -> bool)
    requires InOrder(read, valid, leq) && Transitive(leq)
    ensures InOrder(read + [item], valid, leq) <==> valid(item) && (read == [] || leq(read[|read| - 1], item))
  {
    var longer := read + [item];
    assert longer[|read|] == item;
    if read != [] {
      assert longer[|read| - 1] == read[|read| - 1];
    }
  }

  lemma PrefixInOrder<T>(front: seq<T>, back: seq<T>, valid: T -> bool, leq: (T, T) -> bool)
    ensures InOrder(front + back, valid, leq) ==> InOrder(front, valid, leq)
  {
    if InOrder(front + back, valid, leq) {
      assert forall i :: 0 <= i < |front| ==> front[i] == (front + back)[i];
    }
  }

  /** An item and the one behind it are in order. */
  ghost predicate StepAt<T>(items: seq<T>, leq: (T, T) -> bool, i: nat)
    requires i + 1 < |items|
  {
    leq(items[i], items[i + 1])
  }

  /** Order throughout means order between neighbours. */
  lemma {:induction false} StepsMeanInOrder<T(!new)>(items: seq<T>, valid: T -> bool, leq: (T, T) -> bool)
    requires Transitive(leq)
    ensures InOrder(items, valid, leq) <==>
            && (forall i :: 0 <= i < |items| ==> valid(items[i]))
            && (forall i :: 0 <= i < |items| - 1 ==> StepAt(items, leq, i))
  {
    if items != [] {
      var k := |items| - 1;
      var front := items[..k];
      StepsMeanInOrder(front, valid, leq);
      assert items == front + [items[k]];
      PrefixInOrder(front, [items[k]], valid, leq);
      assert forall i :: 0 <= i < k - 1 ==> StepAt(front, leq, i) == StepAt(items, leq, i);
      if InOrder(front, valid, leq) {
        AppendInOrder(front, items[k], valid, leq);
        assert k > 0 ==> StepAt(items, leq, k - 1) == leq(front[k - 1], items[k]);
      }
    }
  }

  /** Checking item by item accepts exactly the lists that are valid and in order throughout. */
  lemma {:induction false} FitMeansInOrder<T(!new)>(codec: Codec<T>, read: seq<T>, items: seq<T>, valid: T -> bool, leq: (T, T) -> bool)
    requires ChecksOrder(codec, valid, leq) && Transitive(leq) && InOrder(read, valid, leq)
    ensures Fit(codec, read, items) <==> InOrder(read + items, valid, leq)
    decreases |items|
  {
    if items == [] {
      assert read + items == read;
    } else {
      var longer := read + [items[0]];
      assert read + items == longer + items[1..];
      AppendInOrder(read, items[0], valid, leq);
      PrefixInOrder(longer, items[1..], valid, leq);
      if InOrder(longer, valid, leq) {
        FitMeansInOrder(codec, longer, items[1..], valid, leq);
      }
    }
  }
}
