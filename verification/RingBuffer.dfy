/** The growing circular byte buffer of a socket, and why it is a queue of bytes. */
module RingBuffer {
  import opened Stream

  const DEFAULT_BUFF_SIZE: nat := 4

  /** The live bytes of a ring: from the tail up to the head, around the end if the head is behind the tail. */
  function Window(mem: seq<byte>, tail: nat, head: nat): seq<byte>
    requires tail < |mem| && head < |mem|
  {
    if tail <= head then mem[tail..head] else mem[tail..] + mem[..head]
  }

  predicate Live(n: nat, tail: nat, head: nat, i: nat) {
    if tail <= head then tail <= i < head else i < head || tail <= i < n
  }

  /** Every byte outside the live window is zero. */
  predicate Blank(mem: seq<byte>, tail: nat, head: nat) {
    forall i :: 0 <= i < |mem| && !Live(|mem|, tail, head, i) ==> mem[i] == 0
  }

  /** The remainder that wraps a position around the end. */
  function Around(x: nat, n: nat): (r: nat)
    requires n > 0
    ensures r < n && (x < 2 * n ==> r == if x < n then x else x - n)
  {
    Turn(x, n);
    x % n
  }

  lemma Turn(x: nat, n: nat)
    requires n > 0
    ensures x < 2 * n ==> x % n == if x < n then x else x - n
  {
    if n <= x < 2 * n {
      assert x == 1 * n + (x - n);
    }
  }

  /** Dropping `n` live bytes moves the tail, around the end if need be. */
  lemma WindowDrop(mem: seq<byte>, tail: nat, head: nat, n: nat)
    requires tail < |mem| && head < |mem| && n <= |Window(mem, tail, head)|
    ensures Window(mem, Around(tail + n, |mem|), head) == Window(mem, tail, head)[n..]
  {
    hide Around;
    var a, b, k := mem[tail..], mem[..head], |mem| - tail;
    if tail <= head {
      assert mem[tail..head][n..] == mem[tail + n..head];
    } else if n < k {
      DropFirst(a, b, n);
      assert a[n..] == mem[tail + n..];
    } else {
      DropSecond(a, b, n);
      assert b[n - k..] == mem[n - k..head];
    }
  }

  lemma DropFirst(a: seq<byte>, b: seq<byte>, n: nat)
    requires n <= |a|
    ensures (a + b)[n..] == a[n..] + b
  {
  }

  lemma DropSecond(a: seq<byte>, b: seq<byte>, n: nat)
    requires |a| <= n <= |a| + |b|
    ensures (a + b)[n..] == b[n - |a|..]
  {
  }

  // ---------- Bytes laid into a buffer ----------

  /** `now` is `mem` with `data` put in from `at` on, around the end if need be. */
  predicate Laid(mem: seq<byte>, now: seq<byte>, at: nat, data: seq<byte>)
    requires at < |mem| == |now| && |data| < |mem|
  {
    forall i :: 0 <= i < |mem| ==> now[i] == if Live(|mem|, at, Ahead(|mem|, at, |data|), i) then data[Back(|mem|, at, i)] else mem[i]
  }

  function Ahead(n: nat, at: nat, k: nat): (i: nat)
    requires at < n && k < n
    ensures i < n
  {
    if at + k < n then at + k else at + k - n
  }

  /** How far `i` is behind `at`, counted forwards. */
  function Back(n: nat, at: nat, i: nat): nat
    requires at < n && i < n
  {
    if at <= i then i - at else i + n - at
  }

  lemma WindowSize(mem: seq<byte>, tail: nat, head: nat)
    requires tail < |mem| && head < |mem|
    ensures |Window(mem, tail, head)| == Back(|mem|, tail, head)
  {
  }

  lemma WindowAt(mem: seq<byte>, tail: nat, head: nat, k: nat)
    requires tail < |mem| && head < |mem| && k < |Window(mem, tail, head)|
    ensures k < |mem| && Live(|mem|, tail, head, Ahead(|mem|, tail, k))
    ensures Window(mem, tail, head)[k] == mem[Ahead(|mem|, tail, k)]
  {
  }

  lemma LaidAt(mem: seq<byte>, now: seq<byte>, at: nat, data: seq<byte>, i: nat)
    requires at < |mem| == |now| && |data| < |mem| && Laid(mem, now, at, data) && i < |mem|
    ensures now[i] == if Live(|mem|, at, Ahead(|mem|, at, |data|), i) then data[Back(|mem|, at, i)] else mem[i]
  {
    hide Live, Ahead, Back;
  }

  lemma BlankAt(mem: seq<byte>, tail: nat, head: nat, i: nat)
    requires Blank(mem, tail, head) && i < |mem| && !Live(|mem|, tail, head, i)
    ensures mem[i] == 0
  {
    hide Live;
  }

  /** Places counted from the tail: behind those up to the head come those from the head on. */
  lemma PlacesBehind(n: nat, tail: nat, head: nat, m: nat, k: nat)
    requires tail < n && head < n && k < Back(n, tail, head) + m < n
    ensures var i := Ahead(n, tail, k);
            && (Live(n, head, Ahead(n, head, m), i) <==> k >= Back(n, tail, head))
            && (k >= Back(n, tail, head) ==> Back(n, head, i) == k - Back(n, tail, head))
  {
  }

  lemma SizeBehind(n: nat, tail: nat, head: nat, m: nat)
    requires tail < n && head < n && Back(n, tail, head) + m < n
    ensures Back(n, tail, Ahead(n, head, m)) == Back(n, tail, head) + m
  {
  }

  lemma LiveBehind(n: nat, tail: nat, head: nat, m: nat, i: nat)
    requires tail < n && head < n && i < n && Back(n, tail, head) + m < n
    ensures Live(n, tail, Ahead(n, head, m), i) <==> Live(n, tail, head, i) || Live(n, head, Ahead(n, head, m), i)
  {
  }

  /** Laid behind the head, bytes come behind the others; something stays free, so the head does not meet the tail. */
  lemma LaidBehind(mem: seq<byte>, tail: nat, head: nat, data: seq<byte>, now: seq<byte>)
    requires tail < |mem| && head < |mem| == |now| && |Window(mem, tail, head)| + |data| < |mem| && Laid(mem, now, head, data)
    ensures Window(now, tail, Ahead(|mem|, head, |data|)) == Window(mem, tail, head) + data
    ensures Blank(mem, tail, head) ==> Blank(now, tail, Ahead(|mem|, head, |data|))
  {
    WindowSize(mem, tail, head);
    hide Window, Live, Back, Laid, Blank;
    var next := Ahead(|mem|, head, |data|);
    hide Ahead;
    var w, v := Window(mem, tail, head), Window(now, tail, next);
    WindowSize(now, tail, next);
    SizeBehind(|mem|, tail, head, |data|);
    forall k | 0 <= k < |v| ensures v[k] == (w + data)[k] {
      LaidBehindAt(mem, tail, head, data, now, k);
    }
    assert v == w + data;
    if Blank(mem, tail, head) {
      BlankBehind(mem, tail, head, data, now);
    }
  }

  lemma LaidBehindAt(mem: seq<byte>, tail: nat, head: nat, data: seq<byte>, now: seq<byte>, k: nat)
    requires tail < |mem| && head < |mem| == |now| && |Window(mem, tail, head)| + |data| < |mem| && Laid(mem, now, head, data)
    requires k < |Window(now, tail, Ahead(|mem|, head, |data|))| == |Window(mem, tail, head)| + |data|
    ensures Window(now, tail, Ahead(|mem|, head, |data|))[k] == (Window(mem, tail, head) + data)[k]
  {
    hide Window, Live, Back, Laid, Ahead;
    WindowSize(mem, tail, head);
    WindowAt(now, tail, Ahead(|mem|, head, |data|), k);
    PlacesBehind(|mem|, tail, head, |data|, k);
    LaidAt(mem, now, head, data, Ahead(|mem|, tail, k));
    if k < |Window(mem, tail, head)| {
      WindowAt(mem, tail, head, k);
    }
  }

  lemma BlankBehind(mem: seq<byte>, tail: nat, head: nat, data: seq<byte>, now: seq<byte>)
    requires tail < |mem| && head < |mem| == |now| && Back(|mem|, tail, head) + |data| < |mem| && Laid(mem, now, head, data)
    requires Blank(mem, tail, head)
    ensures Blank(now, tail, Ahead(|mem|, head, |data|))
  {
    hide Live, Back, Laid;
    var next := Ahead(|mem|, head, |data|);
    hide Ahead;
    forall i | 0 <= i < |now| && !Live(|now|, tail, next, i) ensures now[i] == 0 {
      LiveBehind(|mem|, tail, head, |data|, i);
      LaidAt(mem, now, head, data, i);
      BlankAt(mem, tail, head, i);
    }
  }

  lemma PlacesOver(n: nat, tail: nat, head: nat, m: nat, k: nat)
    requires tail < n && head < n && m + k < Back(n, tail, head)
    ensures var i := Ahead(n, tail, m + k);
            Ahead(n, Ahead(n, tail, m), k) == i && !Live(n, tail, Ahead(n, tail, m), i)
  {
  }

  lemma SizeOver(n: nat, tail: nat, head: nat, m: nat)
    requires tail < n && head < n && m <= Back(n, tail, head)
    ensures Back(n, Ahead(n, tail, m), head) == Back(n, tail, head) - m
  {
  }

  lemma LiveOver(n: nat, tail: nat, head: nat, m: nat, i: nat)
    requires tail < n && head < n && i < n && m <= Back(n, tail, head)
    ensures Live(n, Ahead(n, tail, m), head, i) <==> Live(n, tail, head, i) && !Live(n, tail, Ahead(n, tail, m), i)
    ensures Live(n, tail, Ahead(n, tail, m), i) ==> Back(n, tail, i) < m
  {
  }

  /** Laid from the tail on, bytes cover the first of the window. */
  lemma LaidOver(mem: seq<byte>, tail: nat, head: nat, data: seq<byte>, now: seq<byte>)
    requires tail < |mem| && head < |mem| == |now| && |data| <= |Window(mem, tail, head)| && |data| < |mem| && Laid(mem, now, tail, data)
    ensures Window(now, Ahead(|mem|, tail, |data|), head) == Window(mem, tail, head)[|data|..]
    ensures Blank(mem, tail, head) && data == Zeros(|data|) ==> Blank(now, Ahead(|mem|, tail, |data|), head)
  {
    WindowSize(mem, tail, head);
    hide Window, Live, Back, Laid, Blank;
    var next := Ahead(|mem|, tail, |data|);
    hide Ahead;
    var w, v := Window(mem, tail, head)[|data|..], Window(now, next, head);
    WindowSize(now, next, head);
    SizeOver(|mem|, tail, head, |data|);
    forall k | 0 <= k < |v| ensures v[k] == w[k] {
      LaidOverAt(mem, tail, head, data, now, k);
    }
    assert v == w;
    if Blank(mem, tail, head) && data == Zeros(|data|) {
      BlankOver(mem, tail, head, data, now);
    }
  }

  lemma LaidOverAt(mem: seq<byte>, tail: nat, head: nat, data: seq<byte>, now: seq<byte>, k: nat)
    requires tail < |mem| && head < |mem| == |now| && |data| + k < |Window(mem, tail, head)| && |data| < |mem| && Laid(mem, now, tail, data)
    requires k < |Window(now, Ahead(|mem|, tail, |data|), head)|
    ensures Window(now, Ahead(|mem|, tail, |data|), head)[k] == Window(mem, tail, head)[|data| + k]
  {
    hide Window, Live, Back, Laid, Ahead;
    WindowSize(mem, tail, head);
    WindowAt(now, Ahead(|mem|, tail, |data|), head, k);
    WindowAt(mem, tail, head, |data| + k);
    PlacesOver(|mem|, tail, head, |data|, k);
    LaidAt(mem, now, tail, data, Ahead(|mem|, tail, |data| + k));
  }

  lemma BlankOver(mem: seq<byte>, tail: nat, head: nat, data: seq<byte>, now: seq<byte>)
    requires tail < |mem| && head < |mem| == |now| && |data| <= Back(|mem|, tail, head) && |data| < |mem| && Laid(mem, now, tail, data)
    requires Blank(mem, tail, head) && data == Zeros(|data|)
    ensures Blank(now, Ahead(|mem|, tail, |data|), head)
  {
    hide Live, Back, Laid;
    var next := Ahead(|mem|, tail, |data|);
    hide Ahead;
    forall i | 0 <= i < |now| && !Live(|now|, next, head, i) ensures now[i] == 0 {
      LiveOver(|mem|, tail, head, |data|, i);
      LaidAt(mem, now, tail, data, i);
      if !Live(|mem|, tail, next, i) {
        BlankAt(mem, tail, head, i);
      }
    }
  }

  function Zeros(n: nat): (s: seq<byte>)
    ensures |s| == n && forall i :: 0 <= i < n ==> s[i] == 0
  {
    seq(n, i => 0)
  }

  /** `now` is `mem` with `data` copied in at `at`. */
  predicate Copied(mem: seq<byte>, now: seq<byte>, at: nat, data: seq<byte>) {
    && |now| == |mem| && at + |data| <= |mem|
    && forall i :: 0 <= i < |mem| ==> now[i] == if at <= i < at + |data| then data[i - at] else mem[i]
  }

  lemma LaidStraight(mem: seq<byte>, now: seq<byte>, at: nat, data: seq<byte>)
    requires Copied(mem, now, at, data) && at < |mem| && |data| < |mem|
    ensures Laid(mem, now, at, data)
  {
  }

  lemma LaidAround(mem: seq<byte>, mid: seq<byte>, now: seq<byte>, at: nat, data: seq<byte>)
    requires at < |mem| && |mem| - at <= |data| < |mem|
    requires Copied(mem, mid, at, data[..|mem| - at]) && Copied(mid, now, 0, data[|mem| - at..])
    ensures Laid(mem, now, at, data)
  {
  }

  /** Copies bytes into a buffer from `at` on. */
  method StdCopy(dest: array<byte>, at: nat, data: seq<byte>)
    requires at + |data| <= dest.Length
    modifies dest
    ensures Copied(old(dest[..]), dest[..], at, data)
  {
    for k := 0 to |data|
      invariant forall i :: 0 <= i < dest.Length ==> dest[i] == if at <= i < at + k then data[i - at] else old(dest[i])
    {
      dest[at + k] := data[k];
    }
  }

  /** Fills a stretch of a buffer with zeros. */
  method FillZero(dest: array<byte>, at: nat, n: nat)
    requires at + n <= dest.Length
    modifies dest
    ensures Copied(old(dest[..]), dest[..], at, Zeros(n))
  {
    StdCopy(dest, at, Zeros(n));
  }

  /** The first of the lengths that a ring grows through that is not below `need`. */
  function GrownTo(len: nat, need: nat): (r: nat)
    requires len > 0
    ensures r >= need && r >= len
    decreases if len < need then need - len else 0
  {
    if len >= need then len else GrownTo(if len > 1024 then len + 4 else len * 2, need)
  }

  class RingBuff {
    var buff: array<byte>
    var len: nat
    var head: nat
    var tail: nat

    ghost predicate Valid()
      reads this
    {
      len == buff.Length && len >= DEFAULT_BUFF_SIZE && head < len && tail < len
    }

    ghost function Contents(): seq<byte>
      requires Valid()
      reads this, buff
    {
      Window(buff[..], tail, head)
    }

    ghost predicate Clean()
      requires Valid()
      reads this, buff
    {
      Blank(buff[..], tail, head)
    }

    constructor ()
      ensures Valid() && fresh(buff) && Contents() == [] && Clean() && LeftSize() == 4
    {
      head, tail, len := 0, 0, DEFAULT_BUFF_SIZE;
      buff := new byte[DEFAULT_BUFF_SIZE](i => 0);
    }

    function LeftSize(): (n: nat)
      requires Valid()
      reads this, buff
      ensures n == len - |Contents()|
    {
      if tail <= head then len - (head - tail) else tail - head
    }

    function DataSize(): (n: nat)
      requires Valid()
      reads this, buff
      ensures n == |Contents()|
    {
      len - LeftSize()
    }

    /** Moves the live bytes to the front of a larger, zeroed buffer. */
    method AppendSize()
      requires Valid()
      modifies this
      ensures Valid() && fresh(buff) && Clean()
      ensures Contents() == old(Contents()) && tail == 0 && len == if old(len) > 1024 then old(len) + 4 else old(len) * 2
    {
      hide Window, Copied, Blank;
      var newLen := if len > 1024 then len + DEFAULT_BUFF_SIZE else len * 2;
      var newBuff := new byte[newLen](i => 0);
      ghost var empty := newBuff[..];
      var dataLen := DataSize();
      ghost var mem, t, h := buff[..], tail, head;
      WindowSize(mem, tail, head);
      CopyLive(newBuff);
      MovedWindow(mem, t, h, empty, newBuff[..]);
      head, tail, len, buff := dataLen, 0, newLen, newBuff;
    }

    /** The copying part of AppendSize. */
    method CopyLive(newBuff: array<byte>)
      requires Valid() && newBuff != buff && newBuff.Length >= len
      modifies newBuff
      ensures Copied(old(newBuff[..]), newBuff[..], 0, Contents())
    {
      hide Copied;
      ghost var mem, empty := buff[..], newBuff[..];
      if tail <= head {
        StdCopy(newBuff, 0, buff[tail..head]);
        assert buff[tail..head] == mem[tail..head];
      } else {
        var len1 := len - tail;
        StdCopy(newBuff, 0, buff[tail..]);
        ghost var half := newBuff[..];
        StdCopy(newBuff, len1, buff[..head]);
        assert buff[tail..] == mem[tail..] && buff[..head] == mem[..head];
        CopiedTwice(empty, half, newBuff[..], mem[tail..], mem[..head]);
      }
    }

    static lemma CopiedTwice(empty: seq<byte>, half: seq<byte>, now: seq<byte>, a: seq<byte>, b: seq<byte>)
      requires Copied(empty, half, 0, a) && Copied(half, now, |a|, b)
      ensures Copied(empty, now, 0, a + b)
    {
    }

    static lemma MovedWindow(mem: seq<byte>, tail: nat, head: nat, empty: seq<byte>, now: seq<byte>)
      requires tail < |mem| && head < |mem| < |now|
      requires Copied(empty, now, 0, Window(mem, tail, head)) && forall i :: 0 <= i < |empty| ==> empty[i] == 0
      ensures |Window(mem, tail, head)| < |now| && Window(now, 0, |Window(mem, tail, head)|) == Window(mem, tail, head)
      ensures Blank(now, 0, |Window(mem, tail, head)|)
    {
      var w := Window(mem, tail, head);
      WindowSize(mem, tail, head);
      hide Window;
      FrontWindow(now, |w|);
      assert now[..|w|] == w;
    }

    static lemma FrontWindow(mem: seq<byte>, n: nat)
      requires n < |mem|
      ensures Window(mem, 0, n) == mem[..n]
    {
    }

    /** Appends, after growing until more than one byte is left over. */
    method AddData(data: seq<byte>)
      requires Valid()
      modifies this, buff
      ensures Valid() && (buff == old(buff) || fresh(buff))
      ensures Contents() == old(Contents()) + data && len == GrownTo(old(len), |old(Contents())| + |data| + 2)
      ensures old(Clean()) ==> Clean()
    {
      while LeftSize() <= |data| + 1
        invariant Valid() && (buff == old(buff) || fresh(buff)) && Contents() == old(Contents())
        invariant old(Clean()) ==> Clean()
        invariant GrownTo(len, |Contents()| + |data| + 2) == GrownTo(old(len), |Contents()| + |data| + 2)
        invariant buff == old(buff) ==> unchanged(buff)
        decreases |data| + 1 - LeftSize()
      {
        AppendSize();
      }
      Put(data);
    }

    /** The copying part of AddData: the data goes behind the head, around the end if need be. */
    method Put(data: seq<byte>)
      requires Valid() && LeftSize() > |data| + 1
      modifies this`head, buff
      ensures Valid() && Contents() == old(Contents()) + data
      ensures old(Clean()) ==> Clean()
    {
      ghost var mem, t, h := buff[..], tail, head;
      hide Window, Blank, Laid, Ahead;
      LayBytes(data);
      LaidBehind(mem, t, h, data, buff[..]);
    }

    method LayBytes(data: seq<byte>)
      requires Valid() && LeftSize() > |data| + 1
      modifies this`head, buff
      ensures head == Ahead(len, old(head), |data|) && Laid(old(buff[..]), buff[..], old(head), data)
    {
      ghost var mem, h := buff[..], head;
      hide Window, Copied, Laid, Around, Live, Back;
      if head >= tail {
        if len - head >= |data| {
          StdCopy(buff, head, data);
          LaidStraight(mem, buff[..], h, data);
          head := Around(head + |data|, len);
        } else {
          var len1 := len - head;
          StdCopy(buff, head, data[..len1]);
          ghost var mid := buff[..];
          StdCopy(buff, 0, data[len1..]);
          LaidAround(mem, mid, buff[..], h, data);
          head := |data| - len1;
        }
      } else {
        StdCopy(buff, head, data);
        LaidStraight(mem, buff[..], h, data);
        head := Around(head + |data|, len);
      }
    }

    /** Drops bytes from the front and overwrites them with zeros; refuses none and more than there are. */
    method DelData(n: nat) returns (ok: bool)
      requires Valid()
      modifies this`tail, buff
      ensures Valid() && ok == (0 < n <= |old(Contents())|)
      ensures Contents() == if ok then old(Contents())[n..] else old(Contents())
      ensures old(Clean()) ==> Clean()
      ensures !ok ==> tail == old(tail) && unchanged(buff)
    {
      if DataSize() < n || n == 0 {
        return false;
      }
      Erase(n);
      tail := Around(tail + n, len);
      ok := true;
    }

    /** The zeroing part of DelData: the first live bytes, around the end if need be. */
    method Erase(n: nat)
      requires Valid() && 0 < n <= |Contents()|
      modifies buff
      ensures Window(buff[..], Around(tail + n, len), head) == old(Contents())[n..]
      ensures old(Clean()) ==> Blank(buff[..], Around(tail + n, len), head)
    {
      ghost var mem := buff[..];
      WindowSize(mem, tail, head);
      hide Window, Blank, Laid, Around, Live;
      FillBytes(n);
      assert Around(tail + n, len) == Ahead(len, tail, n);
      LaidOver(mem, tail, head, Zeros(n), buff[..]);
    }

    method FillBytes(n: nat)
      requires Valid() && 0 < n <= Back(len, tail, head)
      modifies buff
      ensures Laid(old(buff[..]), buff[..], tail, Zeros(n))
    {
      ghost var mem := buff[..];
      hide Copied, Laid, Live;
      if head > tail {
        FillZero(buff, tail, n);
        LaidStraight(mem, buff[..], tail, Zeros(n));
      } else if head < tail {
        var len1 := len - tail;
        if len1 >= n {
          FillZero(buff, tail, n);
          LaidStraight(mem, buff[..], tail, Zeros(n));
        } else {
          FillZero(buff, tail, len1);
          ghost var mid := buff[..];
          FillZero(buff, 0, n - len1);
          ZerosSplit(n, len1);
          LaidAround(mem, mid, buff[..], tail, Zeros(n));
        }
      } else {
        assert false;
      }
    }

    static lemma ZerosSplit(n: nat, k: nat)
      requires k <= n
      ensures Zeros(n)[..k] == Zeros(k) && Zeros(n)[k..] == Zeros(n - k)
    {
    }

    /**
     * Drops bytes without overwriting them, and without a test: exactly when there are so many, the first ones go and
     * the others stay.
     */
    method Step(n: nat)
      requires Valid()
      modifies this`tail
      ensures Valid() && tail == (old(tail) + n) % len
      ensures n <= |old(Contents())| ==> Contents() == old(Contents())[n..]
      ensures |Contents()| == |old(Contents())| - n <==> n <= |old(Contents())|
    {
      if n <= |Contents()| {
        WindowDrop(buff[..], tail, head, n);
      }
      tail := Around(tail + n, len);
    }

    /** Copies bytes from the front and leaves them where they are. */
    method ReadBegin(n: nat) returns (ok: bool, dest: seq<byte>)
      requires Valid()
      ensures ok == (n <= |Contents()|)
      ensures dest == if ok then Contents()[..n] else []
    {
      if DataSize() < n {
        return false, [];
      }
      if head >= tail {
        dest := buff[tail..tail + n];
        assert dest == buff[..][tail..head][..n];
      } else {
        var len1 := len - tail;
        if len1 >= n {
          dest := buff[tail..tail + n];
          assert dest == buff[..][tail..][..n];
        } else {
          dest := buff[tail..tail + len1] + buff[..n - len1];
          assert buff[..][tail..] == buff[tail..tail + len1] && buff[..][..head][..n - len1] == buff[..n - len1];
        }
      }
      ok := true;
    }

    /** Reads and drops; reports failure when there is nothing to drop. */
    method ReadDelBegin(n: nat) returns (ok: bool, dest: seq<byte>)
      requires Valid()
      modifies this`tail, buff
      ensures Valid() && ok == (0 < n <= |old(Contents())|)
      ensures dest == if n <= |old(Contents())| then old(Contents())[..n] else []
      ensures Contents() == if ok then old(Contents())[n..] else old(Contents())
      ensures old(Clean()) ==> Clean()
    {
      var have: bool;
      have, dest := ReadBegin(n);
      if !have {
        return false, [];
      }
      ok := DelData(n);
    }
  }
  // ---------- Any run of operations ----------

  datatype Op = Add(data: seq<byte>) | Del(n: nat) | Skip(n: nat) | Read(n: nat) | Take(n: nat)

  datatype Answer = Answer(ok: bool, bytes: seq<byte>)

  /** What an operation does to a queue of bytes, and what it answers. */
  function Queued(q: seq<byte>, op: Op): (seq<byte>, Answer) {
    match op
    case Add(data) => (q + data, Answer(true, []))
    case Del(n) => if 0 < n <= |q| then (q[n..], Answer(true, [])) else (q, Answer(false, []))
    case Skip(n) => if n <= |q| then (q[n..], Answer(true, [])) else (q, Answer(true, []))
    case Read(n) => if n <= |q| then (q, Answer(true, q[..n])) else (q, Answer(false, []))
    case Take(n) => if 0 < n <= |q| then (q[n..], Answer(true, q[..n])) else (q, Answer(false, []))
  }

  function QueueAll(q: seq<byte>, ops: seq<Op>): (seq<byte>, seq<Answer>) {
    if ops == [] then (q, [])
    else
      var (r, answers) := QueueAll(q, ops[..|ops| - 1]);
      var (s, a) := Queued(r, ops[|ops| - 1]);
      (s, answers + [a])
  }

  /** Step is called for no more bytes than there are. */
  predicate StepsFit(q: seq<byte>, ops: seq<Op>) {
    forall i :: 0 <= i < |ops| && ops[i].Skip? ==> ops[i].n <= |QueueAll(q, ops[..i]).0|
  }

  method Apply(ring: RingBuff, op: Op) returns (a: Answer)
    requires ring.Valid() && (op.Skip? ==> op.n <= |ring.Contents()|)
    modifies ring, ring.buff
    ensures ring.Valid() && (ring.buff == old(ring.buff) || fresh(ring.buff))
    ensures (ring.Contents(), a) == Queued(old(ring.Contents()), op)
    ensures old(ring.Clean()) && !op.Skip? ==> ring.Clean()
  {
    match op {
      case Add(data) =>
        ring.AddData(data);
        a := Answer(true, []);
      case Del(n) =>
        var ok := ring.DelData(n);
        a := Answer(ok, []);
      case Skip(n) =>
        ring.Step(n);
        a := Answer(true, []);
      case Read(n) =>
        var ok, bytes := ring.ReadBegin(n);
        a := Answer(ok, bytes);
      case Take(n) =>
        var ok, bytes := ring.ReadDelBegin(n);
        a := Answer(ok, if ok then bytes else []);
    }
  }

  /** Over any run the ring answers like a queue of bytes; without Step nothing is left behind outside the window. */
  method Run(ops: seq<Op>) returns (ring: RingBuff, answers: seq<Answer>)
    requires StepsFit([], ops)
    ensures fresh(ring) && ring.Valid() && (ring.Contents(), answers) == QueueAll([], ops)
    ensures (forall i :: 0 <= i < |ops| ==> !ops[i].Skip?) ==> ring.Clean()
  {
    ring := new RingBuff();
    answers := [];
    for i := 0 to |ops|
      invariant fresh(ring) && fresh(ring.buff) && ring.Valid() && (ring.Contents(), answers) == QueueAll([], ops[..i])
      invariant (forall k :: 0 <= k < i ==> !ops[k].Skip?) ==> ring.Clean()
    {
      var a := Apply(ring, ops[i]);
      answers := answers + [a];
      assert ops[..i + 1][..i] == ops[..i];
    }
    assert ops[..|ops|] == ops;
  }
}
