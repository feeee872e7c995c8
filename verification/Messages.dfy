/** The outgoing message buffer: octets are written at a moving position while the length is counted apart. */
module Messages {
  import opened Words

  /** The buffer with its write position and the length used so far. */
  datatype Draft = Draft(buffer: seq<Octet>, position: nat, used: int)

  /** `octets` written over what stood at position `p`. */
  function Overwrite(b: seq<Octet>, p: nat, octets: seq<Octet>): (r: seq<Octet>)
    requires p + |octets| <= |b|
    ensures |r| == |b|
  {
    b[..p] + octets + b[p + |octets|..]
  }

  function Append(d: Draft, octets: seq<Octet>): (r: Draft)
    requires d.position + |octets| <= |d.buffer|
    ensures |r.buffer| == |d.buffer|
  {
    Draft(Overwrite(d.buffer, d.position, octets), d.position + |octets|, d.used + |octets|)
  }

  lemma AppendTwice(d: Draft, a: seq<Octet>, b: seq<Octet>)
    requires d.position + |a| + |b| <= |d.buffer|
    ensures Append(Append(d, a), b) == Append(d, a + b)
  {
    assert Append(Append(d, a), b).buffer == Append(d, a + b).buffer;
  }

  lemma AppendNothing(d: Draft)
    requires d.position <= |d.buffer|
    ensures Append(d, []) == d
  {
    assert Append(d, []).buffer == d.buffer;
  }

  class Message {
    const buffer: array<Octet>
    var position: nat
    var used: int

    ghost function View(): Draft
      reads this, buffer
    {
      Draft(buffer[..], position, used)
    }

    /** Room for `n` more octets. */
    ghost predicate Room(n: nat)
      reads this
    {
      position + n <= buffer.Length
    }

    /** `InitializeENIPMessage`: all octets zero, position at the start, nothing used. */
    constructor (capacity: nat)
      ensures fresh(buffer) && View() == Draft(seq(capacity, _ => 0), 0, 0)
    {
      buffer := new Octet[capacity](_ => 0);
      position, used := 0, 0;
      new;
      assert buffer[..] == seq(capacity, _ => 0);
    }

    method AddSint(v: nat)
      requires Room(1)
      modifies this, buffer
      ensures View() == Append(old(View()), [v % 256])
    {
      buffer[position] := v % 256;
      position, used := position + 1, used + 1;
      assert buffer[..] == Overwrite(old(buffer[..]), old(position), [v % 256]);
    }

    method AddInt(v: nat)
      requires Room(2)
      modifies this, buffer
      ensures View() == Append(old(View()), Le16(v))
    {
      buffer[position] := v % 256;
      buffer[position + 1] := v / 256 % 256;
      position, used := position + 2, used + 2;
      assert buffer[..] == Overwrite(old(buffer[..]), old(position), Le16(v));
    }

    method AddDint(v: nat)
      requires Room(4)
      modifies this, buffer
      ensures View() == Append(old(View()), Le32(v))
    {
      buffer[position] := v % 256;
      buffer[position + 1] := v / 256 % 256;
      buffer[position + 2] := v / 0x1_0000 % 256;
      buffer[position + 3] := v / 0x100_0000 % 256;
      position, used := position + 4, used + 4;
      assert buffer[..] == Overwrite(old(buffer[..]), old(position), Le32(v));
    }

    /** A block copy followed by the moves of position and length. */
    method AddOctets(octets: seq<Octet>)
      requires Room(|octets|)
      modifies this, buffer
      ensures View() == Append(old(View()), octets)
    {
      forall i | 0 <= i < |octets| {
        buffer[position + i] := octets[i];
      }
      position, used := position + |octets|, used + |octets|;
      assert buffer[..] == Overwrite(old(buffer[..]), old(position), octets);
    }

    /** `FillNextNMessageOctetsWithValueAndMoveToNextPosition`. */
    method Fill(value: Octet, amount: nat)
      requires Room(amount)
      modifies this, buffer
      ensures View() == Append(old(View()), seq(amount, _ => value))
    {
      AddOctets(seq(amount, _ => value));
    }

    /** `MoveMessageNOctets`, in either direction. */
    method Move(amount: int)
      requires 0 <= position + amount
      modifies this
      ensures View() == Draft(old(buffer[..]), old(position) + amount, old(used) + amount)
    {
      position, used := position + amount, used + amount;
    }

    /** The position alone; the length stays. */
    method Seek(to: nat)
      modifies this
      ensures View() == old(View()).(position := to)
    {
      position := to;
    }
  }
}
