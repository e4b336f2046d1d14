/**
 * The bounded command history of Assignment01/myshellv4.c, whose
 * `add_to_history` Assignment01/myshellv5.c repeats word for word: a fixed
 * array of ten slots and a count. It fills slot by slot; once full, every
 * entry moves down one slot, dropping the oldest, and the new line goes in
 * the last slot.
 */
module History {

  const HistorySize: nat := 10

  /** The entries after `cmd` is recorded into entries `h`. */
  function Recorded(h: seq<string>, cmd: string): (r: seq<string>)
    requires |h| <= HistorySize
    ensures |r| <= HistorySize
    ensures |r| == if |h| < HistorySize then |h| + 1 else HistorySize
    ensures r[|r| - 1] == cmd
  {
    if |h| < HistorySize then h + [cmd] else h[1..] + [cmd]
  }

  /** The last `n` elements of `s` (all of `s` when it is shorter). */
  function LastN<T>(s: seq<T>, n: nat): (r: seq<T>)
    ensures |r| == if |s| <= n then |s| else n
  {
    if |s| <= n then s else s[|s| - n..]
  }

  /** The entries after recording every line of `cmds` in turn. */
  function RecordAll(h: seq<string>, cmds: seq<string>): (r: seq<string>)
    requires |h| <= HistorySize
    ensures |r| <= HistorySize
    decreases |cmds|
  {
    if cmds == [] then h else RecordAll(Recorded(h, cmds[0]), cmds[1..])
  }

  lemma RecordedIsLastN(h: seq<string>, cmd: string)
    requires |h| <= HistorySize
    ensures Recorded(h, cmd) == LastN(h + [cmd], HistorySize)
  {
    if |h| == HistorySize {
      assert (h + [cmd])[1..] == h[1..] + [cmd];
    }
  }

  lemma LastNOfLastN<T>(x: seq<T>, y: seq<T>, n: nat)
    ensures LastN(LastN(x, n) + y, n) == LastN(x + y, n)
  {
    var l := LastN(x, n);
    if |x| > n {
      var a, b := LastN(l + y, n), LastN(x + y, n);
      assert |a| == |b|;
      forall k | 0 <= k < |a| ensures a[k] == b[k] {
        if |y| < n {
          var off := |l + y| - n;
          if k + off < |l| {
            assert a[k] == l[k + off] == x[|x| - n + k + off];
          }
        }
      }
    }
  }

  /** The history is a FIFO window: after any run of commands it holds the
      last ten of everything recorded, oldest first. */
  lemma {:induction false} RecordAllKeepsLastTen(h: seq<string>, cmds: seq<string>)
    requires |h| <= HistorySize
    ensures RecordAll(h, cmds) == LastN(h + cmds, HistorySize)
    decreases |cmds|
  {
    if cmds == [] {
      assert h + cmds == h;
    } else {
      RecordedIsLastN(h, cmds[0]);
      RecordAllKeepsLastTen(Recorded(h, cmds[0]), cmds[1..]);
      LastNOfLastN(h + [cmds[0]], cmds[1..], HistorySize);
      assert h + [cmds[0]] + cmds[1..] == h + cmds;
    }
  }

  /** What `print_history` prints: each entry with its slot number, from 1.
      The shift on overflow renumbers the entries, so a number names a slot,
      not the position of the line among everything ever typed. */
  function Numbered(h: seq<string>): (r: seq<(nat, string)>)
    ensures |r| == |h|
    ensures forall i :: 0 <= i < |h| ==> r[i] == (i + 1, h[i])
  {
    seq(|h|, i requires 0 <= i < |h| => (i + 1, h[i]))
  }

  class HistoryBuffer {
    var slots: array<string>
    var count: nat

    ghost predicate Valid()
      reads this
    {
      slots.Length == HistorySize && count <= HistorySize
    }

    /** The recorded lines, oldest first. */
    function Entries(): (r: seq<string>)
      reads this, slots
      requires Valid()
      ensures |r| <= HistorySize
    {
      slots[..count]
    }

    constructor ()
      ensures Valid() && fresh(slots)
      ensures Entries() == []
    {
      slots := new string[HistorySize];
      count := 0;
    }

    /** add_to_history. */
    method Add(cmd: string)
      requires Valid()
      modifies this, slots
      ensures Valid() && slots == old(slots)
      ensures Entries() == Recorded(old(Entries()), cmd)
    {
      if count < HistorySize {
        slots[count] := cmd;
        count := count + 1;
      } else {
        var i := 1;
        while i < HistorySize
          invariant 1 <= i <= HistorySize
          invariant slots == old(slots) && count == old(count) == HistorySize
          invariant forall k :: 0 <= k < i - 1 ==> slots[k] == old(slots[k + 1])
          invariant forall k :: i - 1 <= k < HistorySize ==> slots[k] == old(slots[k])
        {
          slots[i - 1] := slots[i];
          i := i + 1;
        }
        slots[HistorySize - 1] := cmd;
        assert slots[..count] == old(slots[..count])[1..] + [cmd];
      }
    }

    /** print_history: each slot with its number, from 1. The start index
        the source computes is 0, since the count never exceeds ten. */
    method Listing() returns (lines: seq<(nat, string)>)
      requires Valid()
      ensures lines == Numbered(Entries())
    {
      lines := [];
      var i := 0;
      while i < count
        invariant 0 <= i <= count
        invariant lines == Numbered(Entries()[..i])
      {
        assert Entries()[..i + 1][..i] == Entries()[..i];
        lines := lines + [(i + 1, slots[i])];
        i := i + 1;
      }
      assert Entries()[..i] == Entries();
    }
  }
}
