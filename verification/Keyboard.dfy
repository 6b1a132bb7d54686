/** Standard input as its reads deliver it, and the effect of keys on the line being typed. */
module Keyboard {
  import opened Bytes

  /** What one read of a byte delivers: the byte, the end of input, or an error. */
  datatype Event = Got(b: Byte) | Nothing | Failed(error: nat)

  /** The bytes as a stream. */
  function Events(bs: seq<Byte>): (es: seq<Event>)
    ensures |es| == |bs|
    ensures forall i :: 0 <= i < |bs| ==> es[i] == Got(bs[i])
  {
    seq(|bs|, i requires 0 <= i < |bs| => Got(bs[i]))
  }

  /** What one key does to the line typed so far. */
  function Key<T(==)>(line: seq<T>, c: T, del: T): seq<T> {
    if c != del then line + [c]
    else if line == [] then []
    else line[..|line| - 1]
  }

  /** The keys applied in turn. */
  function Edited<T(==)>(line: seq<T>, keys: seq<T>, del: T): seq<T>
    decreases |keys|
  {
    if keys == [] then line else Edited(Key(line, keys[0], del), keys[1..], del)
  }

  lemma {:induction false} EditedAppend<T>(line: seq<T>, a: seq<T>, b: seq<T>, del: T)
    ensures Edited(line, a + b, del) == Edited(Edited(line, a, del), b, del)
    decreases |a|
  {
    if a == [] {
      assert a + b == b;
    } else {
      assert (a + b)[1..] == a[1..] + b;
      EditedAppend(Key(line, a[0], del), a[1..], b, del);
    }
  }

  /** Keys without deletes are kept as they are. */
  lemma {:induction false} EditedPlain<T>(line: seq<T>, keys: seq<T>, del: T)
    requires del !in keys
    ensures Edited(line, keys, del) == line + keys
    decreases |keys|
  {
    if keys != [] {
      EditedPlain(line + [keys[0]], keys[1..], del);
    }
  }

  /** As many deletes as there are characters typed before take back exactly those. */
  lemma {:induction false} DeletesUndo<T>(line: seq<T>, keys: seq<T>, del: T)
    requires del !in keys
    ensures Edited(line, keys + seq(|keys|, _ => del), del) == line
    decreases |keys|
  {
    if keys == [] {
      assert keys + seq(|keys|, _ => del) == [];
    } else {
      var c, mid := keys[0], keys[1..] + seq(|keys| - 1, _ => del);
      assert keys + seq(|keys|, _ => del) == [c] + (mid + [del]);
      EditedAppend(line, [c], mid + [del], del);
      assert Edited(line, [c], del) == line + [c];
      EditedAppend(line + [c], mid, [del], del);
      DeletesUndo(line + [c], keys[1..], del);
      assert Edited(line + [c], [del], del) == line;
    }
  }
}
