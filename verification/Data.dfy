/** `Data`: the growable heap buffer, refining a byte sequence. */
module DataBuffer {
  import opened Growth

  const INT64_LIMIT: nat := 0x8000_0000_0000_0000

  /** `std::copy(from, from + n, to + at)`; within one array the ranges must not overlap. */
  method CopyBytes(from: array<char>, n: nat, to: array<char>, at: nat)
    requires n <= from.Length && at + n <= to.Length
    requires from == to ==> n <= at
    modifies to
    ensures to[..at] == old(to[..at]) && to[at..at + n] == old(from[..n])
  {
    forall i | 0 <= i < n {
      to[at + i] := from[i];
    }
  }

  class Data {
    var capacity: nat
    var length: nat
    var rawData: array?<char>
    /** Bytes moved by reallocations in `Append`; not in the program. */
    ghost var moved: nat

    /** A null buffer may carry a stale length: move assignment leaves one behind. */
    ghost predicate Valid()
      reads this
    {
      rawData != null ==> length <= capacity == rawData.Length
    }

    /** No stale length: what every operation but move assignment leaves behind. */
    ghost predicate Settled()
      reads this
    {
      && Valid()
      && (rawData == null ==> length == 0 && capacity == 0)
    }

    /** `view()`: the bytes in use. */
    function View(): string
      requires Valid()
      reads this, rawData
    {
      if rawData == null then "" else rawData[..length]
    }

    /** `empty()`. */
    predicate Empty()
      reads this
    {
      rawData == null || length == 0
    }

    lemma EmptyMeansNoBytes()
      requires Valid()
      ensures Empty() <==> View() == ""
    {
      if rawData != null && length > 0 {
        assert rawData[..length][0] == rawData[0];
      }
    }

    ghost function Meter(): Meter
      reads this
    {
      if rawData == null then Growth.Meter(0, 0, moved) else Growth.Meter(length, capacity, moved)
    }

    constructor ()
      ensures Settled() && rawData == null && View() == "" && moved == 0
    {
      capacity, length, rawData := 0, 0, null;
      moved := 0;
    }

    constructor FromString(str: string)
      ensures Settled() && View() == str && fresh(rawData) && capacity == |str|
    {
      capacity, length := |str|, |str|;
      rawData := new char[|str|](i requires 0 <= i < |str| => str[i]);
      moved := 0;
    }

    /** Move assignment `*this = std::move(data)`: the source keeps its length and capacity. */
    method MoveFrom(data: Data)
      requires Valid() && data.Valid()
      modifies this, data
      ensures Valid() && data.Valid()
      ensures View() == old(data.View())
      ensures data != this ==> data.View() == ""
      ensures data != this ==> data.length == old(data.length) && data.capacity == old(data.capacity)
      ensures old(data.Settled()) ==> Settled()
      ensures data != this ==> rawData == old(data.rawData) && data.rawData == null
      ensures data == this ==> rawData == old(rawData)
    {
      if data == this {
        return;
      }
      Destroy();
      capacity, length, rawData := data.capacity, data.length, data.rawData;
      data.rawData := null;
    }

    /** `copy(pos, len)`: up to `len` bytes from `pos`, all of them when `len` is negative. */
    method Copy(pos: nat, len: int) returns (res: Data)
      requires Valid()
      ensures fresh(res) && res.Settled() && (res.rawData == null || fresh(res.rawData))
      ensures res.View() == Slice(View(), pos, len)
    {
      EmptyMeansNoBytes();
      res := new Data();
      if Empty() || len == 0 || pos >= length {
        return;
      }
      var resLen := if len < 0 then length - pos else len;
      var size := if resLen < length - pos then resLen else length - pos;
      res.capacity, res.length := size, size;
      var source := rawData;
      res.rawData := new char[size](i requires 0 <= i < size && pos + i < source.Length reads source =>
        source[pos + i]);
    }

    method Destroy()
      requires Valid()
      modifies this
      ensures Settled() && rawData == null && View() == "" && moved == old(moved)
    {
      rawData := null;
      length := 0;
      capacity := 0;
    }

    /** Zeroes the storage and empties the view; the storage is kept. */
    method ResetData()
      requires Valid()
      modifies this, rawData
      ensures Valid() && View() == "" && length == 0
      ensures rawData == old(rawData) && capacity == old(capacity)
      ensures rawData != null ==> forall i | 0 <= i < capacity :: rawData[i] == '\0'
    {
      if rawData != null {
        forall i | 0 <= i < rawData.Length {
          rawData[i] := '\0';
        }
      }
      length := 0;
    }

    /** Changes the capacity to `size`, cutting the contents when they do not fit. */
    method Resize(size: nat)
      requires Settled()
      modifies this
      ensures Settled() && capacity == size
      ensures View() == Slice(old(View()), 0, size)
      ensures rawData == null || rawData == old(rawData) || fresh(rawData)
    {
      if size == 0 {
        Destroy();
        return;
      }
      if size == capacity {
        return;
      }
      var p := rawData;
      var contentLength := if size < length then size else length;
      rawData := new char[size];
      if p != null {
        CopyBytes(p, contentLength, rawData, 0);
      }
      length := contentLength;
      capacity := size;
    }

    /** Hands the storage over to a new object and leaves this one empty. */
    method DetachData() returns (res: Data)
      requires Valid()
      modifies this
      ensures fresh(res) && res.Valid() && res.View() == old(View()) && res.rawData == old(rawData)
      ensures Settled() && rawData == null && View() == ""
    {
      res := new Data();
      res.length, res.capacity, res.rawData := length, capacity, rawData;
      length := 0;
      capacity := 0;
      rawData := null;
    }

    /** The growing half of `append`: room for `expectLength` bytes, the contents moved along. */
    method Reserve(expectLength: nat)
      requires Settled()
      modifies this
      ensures Settled() && capacity >= expectLength
      ensures View() == old(View()) && length == old(length)
      ensures if old(capacity) < expectLength
              then fresh(rawData) && capacity == Grown(expectLength) && moved == old(moved) + length
              else unchanged(this)
    {
      hide Grown;
      GrownIsEnough(expectLength);
      if capacity < expectLength {
        var p := rawData;
        var len := Grown(expectLength);
        rawData := new char[len];
        capacity := len;
        moved := moved + length;
        if p != null {
          CopyBytes(p, length, rawData, 0);
        }
      }
    }

    /** The copying half of `append`, once there is room. */
    method Fill(d: Data)
      requires Settled() && d.Settled() && length + d.length <= capacity
      requires d != this ==> d.rawData == null || d.rawData != rawData
      modifies this`length, rawData
      ensures Settled() && length == old(length) + old(d.length)
      ensures View() == old(View()) + old(d.View())
      ensures d != this ==> d.View() == old(d.View())
    {
      if rawData != null && d.rawData != null {
        CopyBytes(d.rawData, d.length, rawData, length);
        assert rawData[..length + d.length] == rawData[..length] + rawData[length..length + d.length];
      }
      length := length + d.length;
    }

    /** Appends the bytes of `d`, which may be this very object; the stale length of a null buffer
        is forgotten first. When it has to grow, the cast of the product to 64 bits must be defined. */
    method Append(d: Data)
      requires Valid()
      requires d != this ==> d.Settled() && (d.rawData == null || d.rawData != rawData)
      requires Meter().capacity < |View()| + |d.View()| ==> Grown(|View()| + |d.View()|) < INT64_LIMIT
      modifies this, rawData
      ensures Settled()
      ensures View() == old(View()) + old(d.View())
      ensures d != this ==> d.View() == old(d.View())
      ensures rawData == null || rawData == old(rawData) || fresh(rawData)
      ensures Meter() == Extend(old(Meter()), |old(d.View())|)
    {
      hide Grown;
      if rawData == null {
        length := 0;
        capacity := 0;
      }
      var expectLength := length + d.length;
      assert View() == old(View()) && d.View() == old(d.View()) && d.length == |d.View()|;
      Reserve(expectLength);
      assert d.View() == old(d.View());
      Fill(d);
    }
  }

  /** The bytes of `s` from `pos`, at most `len` of them when `len` is not negative. */
  function Slice(s: string, pos: nat, len: int): (r: string)
    ensures pos >= |s| ==> r == ""
    ensures pos < |s| ==> r <= s[pos..] && |r| == if 0 <= len <= |s| - pos then len else |s| - pos
  {
    if pos >= |s| then ""
    else if len < 0 || len > |s| - pos then s[pos..]
    else s[pos..pos + len]
  }
}
