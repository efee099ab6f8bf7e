// TiXmlString: a character buffer with a terminator that grows when text is
// appended, and what that growth costs.

module TinyString {
  import opened CStrings

  // ---- the cost of growing ----

  /** The sizes of a string, and how many bytes all its reallocations copied. */
  datatype Sizes = Sizes(size: nat, capacity: nat, copied: nat)

  /** append of `length` bytes. */
  function Appended(s: Sizes, length: nat): Sizes {
    var newSize := s.size + length;
    if newSize > s.capacity then Sizes(newSize, newSize + s.capacity, s.copied + s.size)
    else Sizes(newSize, s.capacity, s.copied)
  }

  /** A run of appends. */
  function Run(s: Sizes, lengths: seq<nat>): Sizes
    decreases |lengths|
  {
    if lengths == [] then s else Run(Appended(s, lengths[0]), lengths[1..])
  }

  function Sum(lengths: seq<nat>): nat {
    if lengths == [] then 0 else lengths[0] + Sum(lengths[1..])
  }

  predicate Economical(s: Sizes) {
    s.size <= s.capacity <= 2 * s.size && s.copied <= s.capacity
  }

  /** Over every run no more than twice the text is reserved, and at most twice the text was ever copied. */
  lemma {:induction false} RunIsEconomical(s: Sizes, lengths: seq<nat>)
    requires Economical(s)
    ensures Economical(Run(s, lengths)) && Run(s, lengths).size == s.size + Sum(lengths)
    decreases |lengths|
  {
    if lengths != [] {
      RunIsEconomical(Appended(s, lengths[0]), lengths[1..]);
    }
  }

  /** From the empty string, the bytes copied by all reallocations are at most twice the bytes appended. */
  lemma EmptyRunCost(lengths: seq<nat>)
    ensures var s := Run(Sizes(0, 0, 0), lengths);
            s.size == Sum(lengths) && s.size <= s.capacity <= 2 * s.size && s.copied <= s.capacity
  {
    RunIsEconomical(Sizes(0, 0, 0), lengths);
  }

  // ---- one byte at a time ----

  function Ones(n: nat): (r: seq<nat>)
    ensures |r| == n
  {
    if n == 0 then [] else Ones(n - 1) + [1]
  }

  function Power2(k: nat): (p: nat)
    ensures p > k
  {
    if k == 0 then 1 else 2 * Power2(k - 1)
  }

  lemma {:induction false} RunLast(s: Sizes, lengths: seq<nat>, length: nat)
    ensures Run(s, lengths + [length]) == Appended(Run(s, lengths), length)
    decreases |lengths|
  {
    if lengths == [] {
      assert lengths + [length] == [length] && [length][1..] == [];
    } else {
      RunLast(Appended(s, lengths[0]), lengths[1..], length);
      assert (lengths + [length])[1..] == lengths[1..] + [length];
    }
  }

  /**
   * n single bytes appended to an empty string: the capacity is the least
   * number of the form 2^k - 1 that holds them, and k bytes less were copied.
   */
  lemma {:induction false} OneByteAtATime(n: nat, k: nat)
    requires (if k == 0 then n == 0 else Power2(k - 1) <= n) && n < Power2(k)
    ensures Run(Sizes(0, 0, 0), Ones(n)) == Sizes(n, Power2(k) - 1, Power2(k) - 1 - k)
    decreases n
  {
    if n > 0 {
      RunLast(Sizes(0, 0, 0), Ones(n - 1), 1);
      if n == Power2(k - 1) {
        OneByteAtATime(n - 1, k - 1);
      } else {
        OneByteAtATime(n - 1, k);
      }
    }
  }

  // ---- the buffer ----

  class TiXmlString {
    var size: nat
    var capacity: nat
    var str: array<char>
    /** The bytes that reallocations copied so far. */
    ghost var copied: nat

    ghost predicate Valid()
      reads this, str
    {
      size <= capacity && str.Length == capacity + 1 && str[size] == NUL
    }

    ghost function Content(): string
      requires Valid()
      reads this, str
    {
      str[..size]
    }

    ghost function Measures(): Sizes
      reads this
    {
      Sizes(size, capacity, copied)
    }

    constructor ()
      ensures Valid() && Content() == "" && Measures() == Sizes(0, 0, 0) && fresh(str)
    {
      size, capacity, copied := 0, 0, 0;
      str := new char[1];
      new;
      str[0] := NUL;
    }

    method SetSize(sz: nat)
      requires sz < str.Length
      modifies `size, str
      ensures size == sz && str[sz] == NUL && forall i :: 0 <= i < str.Length && i != sz ==> str[i] == old(str[i])
    {
      size := sz;
      str[sz] := NUL;
    }

    /** Room for cap characters; the content stays. */
    method Reserve(cap: nat)
      requires Valid()
      modifies `capacity, `str, `copied
      ensures Valid() && Content() == old(Content())
      ensures if cap > old(capacity) then capacity == cap && fresh(str) && copied == old(copied) + size
              else capacity == old(capacity) && str == old(str) && copied == old(copied)
    {
      if cap > capacity {
        var tmp := new char[cap + 1];
        forall i | 0 <= i < size { tmp[i] := str[i]; }
        tmp[size] := NUL;
        copied := copied + size;
        str := tmp;
        capacity := cap;
      }
    }

    /** The buffer that is appended does not alias this one. */
    method Append(text: string)
      requires Valid()
      modifies this, str
      ensures Valid() && Content() == old(Content()) + text && (str == old(str) || fresh(str))
      ensures Measures() == Appended(old(Measures()), |text|)
      ensures capacity == if old(size) + |text| > old(capacity) then old(size) + |text| + old(capacity) else old(capacity)
    {
      var newSize := size + |text|;
      if newSize > capacity {
        Reserve(newSize + capacity);
      }
      forall i | 0 <= i < |text| { str[size + i] := text[i]; }
      SetSize(newSize);
    }

    /** The buffer is kept when it is large enough, but not far too large. */
    method Assign(text: string)
      requires Valid()
      modifies this, str
      ensures Valid() && Content() == text && (str == old(str) || fresh(str))
      ensures capacity == if |text| > old(capacity) || old(capacity) > 3 * (|text| + 8) then |text| else old(capacity)
    {
      var cap := capacity;
      if |text| > cap || cap > 3 * (|text| + 8) {
        var tmp := new char[|text| + 1];
        forall i | 0 <= i < |text| { tmp[i] := text[i]; }
        tmp[|text|] := NUL;
        copied := copied + |text|;
        str, size, capacity := tmp, |text|, |text|;
      } else {
        forall i | 0 <= i < |text| { str[i] := text[i]; }
        SetSize(|text|);
      }
    }
  }

  function Concat(pieces: seq<string>): string {
    if pieces == [] then "" else pieces[0] + Concat(pieces[1..])
  }

  function Lengths(pieces: seq<string>): (n: seq<nat>)
    ensures |n| == |pieces|
  {
    if pieces == [] then [] else [|pieces[0]|] + Lengths(pieces[1..])
  }

  /** Appending pieces to an empty string: the content is their concatenation, at a linear cost. */
  method Build(pieces: seq<string>) returns (content: string, ghost copied: nat)
    ensures content == Concat(pieces) && copied <= 2 * |content|
    ensures copied == Run(Sizes(0, 0, 0), Lengths(pieces)).copied
  {
    var s := new TiXmlString();
    var i := 0;
    assert pieces[0..] == pieces && "" + Concat(pieces) == Concat(pieces);
    ghost var end := Run(Sizes(0, 0, 0), Lengths(pieces));
    while i < |pieces|
      invariant i <= |pieces| && s.Valid() && fresh(s.str)
      invariant s.Content() + Concat(pieces[i..]) == Concat(pieces)
      invariant Run(s.Measures(), Lengths(pieces[i..])) == end && Economical(s.Measures())
    {
      var piece := pieces[i];
      assert pieces[i..][0] == piece && pieces[i..][1..] == pieces[i + 1..];
      assert Lengths(pieces[i..])[1..] == Lengths(pieces[i + 1..]);
      assert s.Content() + (piece + Concat(pieces[i + 1..])) == s.Content() + piece + Concat(pieces[i + 1..]);
      s.Append(piece);
      i := i + 1;
    }
    assert s.Content() + "" == s.Content();
    content := s.str[..s.size];
    copied := s.copied;
  }
}
