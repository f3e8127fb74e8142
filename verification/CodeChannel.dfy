/** The buffered object-code channel: a page of 2048 words filled by words,
    padded bytes and half-word pairs, put when it is full, under an error latch. */
module CodeChannel {
  import opened Syntax

  const PAGESZ := 2048      // words
  const BPAGESZ := 8192     // bytes

  type Byte = x: int | 0 <= x < 256

  // ----- what a record is as bytes -----

  /** A word keeps 32 bits, least significant byte first. */
  function WordBytes(w: int): (r: seq<Byte>)
    ensures |r| == 4
  {
    HalfBytes(w) + HalfBytes(w / 65536)
  }

  function HalfBytes(h: int): (r: seq<Byte>)
    ensures |r| == 2
  {
    [h % 256, h / 256 % 256]
  }

  function Bytes(code: seq<int>): (r: seq<Byte>)
    ensures |r| == |code| && forall i :: 0 <= i < |r| ==> r[i] == code[i] % 256
  {
    seq(|code|, i requires 0 <= i < |code| => code[i] % 256)
  }

  function Zeros(n: nat): (r: seq<Byte>)
    ensures |r| == n && forall i :: 0 <= i < n ==> r[i] == 0
  {
    seq(n, _ => 0)
  }

  /** How many zero bytes complete n bytes to whole words. */
  function Padding(n: nat): (r: nat)
    ensures r < 4 && (n + r) % 4 == 0
  {
    (4 - n % 4) % 4
  }

  function Halves(es: seq<int>): (r: seq<Byte>)
    ensures |r| == 2 * |es|
  {
    if es == [] then [] else Halves(es[..|es| - 1]) + HalfBytes(es[|es| - 1])
  }

  function Record(base: int, code: seq<int>, es: seq<int>): seq<Byte> {
    WordBytes(base) + (Bytes(code) + Zeros(Padding(|code|))) + (Halves(es) + Zeros(2 * (|es| % 2)))
  }

  lemma RecordLength(base: int, code: seq<int>, es: seq<int>)
    ensures |Record(base, code, es)| == 4 + (|code| + Padding(|code|)) + (2 * |es| + 2 * (|es| % 2))
  {
    hide WordBytes, Halves, Padding, Bytes, Zeros;
  }

  lemma PaddedWords(n: nat)
    ensures 4 + n + Padding(n) == (n + 7) / 4 * 4
  {
  }

  lemma PairedWords(n: nat)
    ensures 2 * n + 2 * (n % 2) == (n + 1) / 2 * 4
  {
  }

  /** The size that write adds to the running size is the size of the record. */
  lemma RecordSize(base: int, code: seq<int>, es: seq<int>)
    ensures |Record(base, code, es)| == ((|code| + 7) / 4 + (|es| + 1) / 2) * 4
    ensures |Record(base, code, es)| % 4 == 0
  {
    hide *;
    RecordLength(base, code, es);
    PaddedWords(|code|);
    PairedWords(|es|);
  }

  // ----- and back -----

  function WordAt(s: seq<Byte>, at: nat): int
    requires at + 4 <= |s|
  {
    HalfAt(s, at) + 65536 * HalfAt(s, at + 2)
  }

  function HalfAt(s: seq<Byte>, at: nat): int
    requires at + 2 <= |s|
  {
    var low: int, high: int := s[at], s[at + 1];
    low + 256 * high
  }

  lemma HalfBack(h: int)
    ensures HalfAt(HalfBytes(h), 0) == h % 65536
  {
  }

  lemma WordBack(w: int)
    ensures WordAt(WordBytes(w), 0) == w % 0x1_0000_0000
  {
    HalfBack(w);
    HalfBack(w / 65536);
    assert HalfAt(WordBytes(w), 0) == HalfAt(HalfBytes(w), 0);
    assert HalfAt(WordBytes(w), 2) == HalfAt(HalfBytes(w / 65536), 0);
    hide HalfAt;
    assert w == 65536 * (w / 65536) + w % 65536;
  }

  lemma {:induction false} HalvesAt(es: seq<int>, k: nat)
    requires k < |es|
    ensures Halves(es)[2 * k..2 * k + 2] == HalfBytes(es[k])
  {
    if k < |es| - 1 {
      var front := es[..|es| - 1];
      HalvesAt(front, k);
      assert Halves(es)[2 * k..2 * k + 2] == Halves(front)[2 * k..2 * k + 2];
    }
  }

  /** Where the parts of a record lie. */
  lemma RecordParts(base: int, code: seq<int>, es: seq<int>)
    ensures var r, n, m := Record(base, code, es), |code|, 4 + |code| + Padding(|code|);
            && |r| == m + 2 * |es| + 2 * (|es| % 2)
            && r[..4] == WordBytes(base) && r[4..4 + n] == Bytes(code) && r[4 + n..m] == Zeros(Padding(n))
            && r[m..m + 2 * |es|] == Halves(es) && r[m + 2 * |es|..|r|] == Zeros(2 * (|es| % 2))
  {
    hide *;
    RecordLength(base, code, es);
    var r, m := Record(base, code, es), 4 + |code| + Padding(|code|);
    RecordCut(base, code, es);
    CutTwo(r, 4, m, Bytes(code), Zeros(Padding(|code|)));
    CutTwo(r, m, |r|, Halves(es), Zeros(2 * (|es| % 2)));
  }

  lemma RecordCut(base: int, code: seq<int>, es: seq<int>)
    ensures var r, m := Record(base, code, es), 4 + |code| + Padding(|code|);
            && m <= |r| && r[..4] == WordBytes(base) && r[4..m] == Bytes(code) + Zeros(Padding(|code|))
            && r[m..|r|] == Halves(es) + Zeros(2 * (|es| % 2))
  {
    hide WordBytes, Bytes, Zeros, Padding, Halves;
    Cut(WordBytes(base), Bytes(code) + Zeros(Padding(|code|)), Halves(es) + Zeros(2 * (|es| % 2)));
  }

  lemma Cut(x: seq<Byte>, y: seq<Byte>, z: seq<Byte>)
    ensures (y + z)[..|y|] == y && (y + z)[|y|..] == z
    ensures var s := x + y + z;
            s[..|x|] == x && s[|x|..|x| + |y|] == y && s[|x| + |y|..|s|] == z
  {
  }

  lemma CutTwo(s: seq<Byte>, lo: nat, hi: nat, x: seq<Byte>, y: seq<Byte>)
    requires lo <= hi <= |s| && s[lo..hi] == x + y
    ensures lo + |x| <= hi && s[lo..lo + |x|] == x && s[lo + |x|..hi] == y
  {
    SubCut(s, lo, hi, |x|);
    Cut([], x, y);
  }

  lemma SubCut(s: seq<Byte>, lo: nat, hi: nat, n: nat)
    requires lo <= hi <= |s| && n <= hi - lo
    ensures s[lo..hi][..n] == s[lo..lo + n] && s[lo..hi][n..] == s[lo + n..hi]
  {
  }

  lemma HalfInside(s: seq<Byte>, t: seq<Byte>, lo: nat, hi: nat, at: nat)
    requires lo <= hi <= |t| && t[lo..hi] == s && at + 2 <= |s|
    ensures HalfAt(t, lo + at) == HalfAt(s, at)
  {
  }

  /** Given the two sizes, a record can be read back from its offset. */
  lemma RecordReadsBack(base: int, code: seq<int>, es: seq<int>)
    ensures var r, n, m := Record(base, code, es), |code|, 4 + |code| + Padding(|code|);
            && |r| == m + 2 * |es| + 2 * (|es| % 2)
            && WordAt(r, 0) == base % 0x1_0000_0000
            && r[4..4 + n] == Bytes(code) && r[4 + n..m] == Zeros(Padding(n))
            && (forall k :: 0 <= k < |es| ==> HalfAt(r, m + 2 * k) == es[k] % 65536)
            && (|es| % 2 == 1 ==> HalfAt(r, m + 2 * |es|) == 0)
  {
    hide Record, Halves, HalfBytes, Bytes, WordBytes;
    var r, n, m := Record(base, code, es), |code|, 4 + |code| + Padding(|code|);
    RecordParts(base, code, es);
    WordBack(base);
    HalfInside(WordBytes(base), r, 0, 4, 0);
    HalfInside(WordBytes(base), r, 0, 4, 2);
    forall k | 0 <= k < |es| ensures HalfAt(r, m + 2 * k) == es[k] % 65536 {
      HalvesAt(es, k);
      HalfBack(es[k]);
      HalfInside(HalfBytes(es[k]), Halves(es), 2 * k, 2 * k + 2, 0);
      HalfInside(Halves(es), r, m, m + 2 * |es|, 2 * k);
    }
    if |es| % 2 == 1 {
      assert 2 * (|es| % 2) == 2;
      HalfInside(Zeros(2 * (|es| % 2)), r, m + 2 * |es|, |r|, 0);
    }
  }

  /** The bytes of the base, and those of the half words, from the lowest on. */
  lemma RecordBytes(base: int, code: seq<int>, es: seq<int>)
    ensures var r, m := Record(base, code, es), 4 + |code| + Padding(|code|);
            && |r| == m + 2 * |es| + 2 * (|es| % 2)
            && r[0] == base % 256 && r[1] == base / 256 % 256
            && r[2] == base / 65536 % 256 && r[3] == base / 65536 / 256 % 256
            && forall k :: 0 <= k < |es| ==> r[m + 2 * k] == es[k] % 256 && r[m + 2 * k + 1] == es[k] / 256 % 256
  {
    hide Record, Halves, Bytes, Padding, Zeros;
    var r, m := Record(base, code, es), 4 + |code| + Padding(|code|);
    RecordParts(base, code, es);
    assert forall i :: 0 <= i < 4 ==> r[i] == r[..4][i];
    forall k | 0 <= k < |es| ensures r[m + 2 * k] == es[k] % 256 && r[m + 2 * k + 1] == es[k] / 256 % 256 {
      HalvesAt(es, k);
      TwoInside(HalfBytes(es[k]), Halves(es), 2 * k);
      TwoAt(Halves(es), r, m, 2 * k);
    }
  }

  lemma TwoInside(b: seq<Byte>, s: seq<Byte>, at: nat)
    requires |b| == 2 && at + 2 <= |s| && s[at..at + 2] == b
    ensures s[at] == b[0] && s[at + 1] == b[1]
  {
    assert s[at..at + 2][0] == s[at] && s[at..at + 2][1] == s[at + 1];
  }

  lemma TwoAt(s: seq<Byte>, r: seq<Byte>, m: nat, at: nat)
    requires m + |s| <= |r| && r[m..m + |s|] == s && at + 2 <= |s|
    ensures r[m + at] == s[at] && r[m + at + 1] == s[at + 1]
  {
    assert r[m..m + |s|][at] == r[m + at] && r[m..m + |s|][at + 1] == r[m + at + 1];
  }

  datatype Rec = Rec(base: int, code: seq<int>, es: seq<int>)

  /** The stream after these writes. */
  function StreamOf(rs: seq<Rec>): seq<Byte> {
    if rs == [] then []
    else StreamOf(rs[..|rs| - 1]) + Record(rs[|rs| - 1].base, rs[|rs| - 1].code, rs[|rs| - 1].es)
  }

  /** However many writes follow, the record of the k-th lies where the running
      size was when it was written, and is as long as its two sizes say. */
  lemma {:induction false} EveryRecordStays(rs: seq<Rec>, k: nat)
    requires k < |rs|
    ensures var at, size := |StreamOf(rs[..k])|, ((|rs[k].code| + 7) / 4 + (|rs[k].es| + 1) / 2) * 4;
            && at % 4 == 0 && at + size <= |StreamOf(rs)|
            && StreamOf(rs)[at..at + size] == Record(rs[k].base, rs[k].code, rs[k].es)
    decreases |rs|
  {
    hide Record;
    var front, last := rs[..|rs| - 1], rs[|rs| - 1];
    RecordSize(rs[k].base, rs[k].code, rs[k].es);
    if k == |rs| - 1 {
      WholeWords(front);
    } else {
      EveryRecordStays(front, k);
      assert front[..k] == rs[..k];
    }
  }

  lemma {:induction false} WholeWords(rs: seq<Rec>)
    ensures |StreamOf(rs)| % 4 == 0
  {
    hide Record;
    if rs != [] {
      var last := rs[|rs| - 1];
      WholeWords(rs[..|rs| - 1]);
      RecordSize(last.base, last.code, last.es);
    }
  }

  lemma NoHalves(s: seq<Byte>)
    ensures s + (Halves([]) + Zeros(0)) == s && s + Halves([]) == s
  {
  }

  lemma EvenHalves(es: seq<int>, s: seq<Byte>)
    requires |es| % 2 == 0
    ensures s + Halves(es) == s + (Halves(es) + Zeros(2 * (|es| % 2)))
  {
    assert Zeros(0) == [];
  }

  lemma LastHalf(es: seq<int>, s: seq<Byte>)
    requires es != []
    ensures s + Halves(es[..|es| - 1]) + (HalfBytes(es[|es| - 1]) + HalfBytes(0)) == s + (Halves(es) + Zeros(2))
  {
    assert HalfBytes(0) == Zeros(2);
    Regroup(s, Halves(es[..|es| - 1]), HalfBytes(es[|es| - 1]), Zeros(2));
  }

  lemma Regroup(s: seq<Byte>, f: seq<Byte>, h: seq<Byte>, z: seq<Byte>)
    ensures s + f + (h + z) == s + ((f + h) + z)
  {
  }

  // ----- the channel underneath -----

  datatype ChanState = Going | Closed | Aborted

  /** How an operation of the channel ends: None, or the reason it is not possible. */
  type Outcome = Option<string>

  /** A byte channel. Each put is all or nothing; what the system will say to
      the n-th put and to the end of the channel is fixed but arbitrary. */
  class Chan {
    const fate: nat -> Outcome
    const endFate: Outcome
    var puts: nat
    var delivered: seq<Byte>
    var state: ChanState

    constructor (f: nat -> Outcome, e: Outcome)
      ensures fate == f && endFate == e && puts == 0 && delivered == [] && state == Going
    {
      fate, endFate, puts, delivered, state := f, e, 0, [], Going;
    }

    method Putw(p: array<Byte>, n: nat) returns (r: Outcome)
      requires n <= p.Length
      modifies this`puts, this`delivered
      ensures puts == old(puts) + 1 && r == fate(old(puts))
      ensures delivered == if r.None? then old(delivered) + p[..n] else old(delivered)
    {
      r := fate(puts);
      puts := puts + 1;
      if r.None? { delivered := delivered + p[..n]; }
    }

    /** "permanent" counts as done. */
    method Close() returns (r: Outcome)
      modifies this`state
      ensures state == Closed && r == endFate
    {
      state := Closed;
      r := endFate;
    }

    method Abort() returns (r: Outcome)
      modifies this`state
      ensures state == Aborted && r == endFate
    {
      state := Aborted;
      r := endFate;
    }
  }

  // ----- the buffered channel -----

  class CodeChan {
    const chan: Chan
    const page: array<Byte>
    var count: int
    var index: int
    var closed: bool
    var err: bool
    var why: string
    ghost var stream: seq<Byte>    // everything ever written

    /** With k bytes of the page in use: what was delivered and the page make
        up the stream, until a put fails; then what was delivered stays a
        prefix of it. No put is tried after one failed. */
    ghost predicate Buffered(k: int)
      reads this`err, this`why, this`closed, this`stream, chan, page
    {
      && page.Length == BPAGESZ && 0 <= k <= BPAGESZ
      && (forall j :: 0 <= j < chan.puts - 1 ==> chan.fate(j).None?)
      && (if err then chan.delivered <= stream && (!closed ==> chan.puts > 0 && chan.fate(chan.puts - 1) == Some(why))
          else chan.delivered + page[..k] == stream && (chan.puts > 0 ==> chan.fate(chan.puts - 1).None?))
    }

    ghost predicate Steady()
      reads this`index, this`err, this`why, this`closed, this`stream, chan, page
    {
      0 <= index <= PAGESZ && Buffered(4 * index) && (closed ==> err) && closed == (chan.state != Going)
    }

    /** And the running size is the length of the stream. */
    ghost predicate Valid()
      reads this, chan, page
    {
      Steady() && count == |stream|
    }

    /** All that is left of it when the channel is closed: the page is no longer its own. */
    ghost predicate Sealed()
      reads this, chan
    {
      && page.Length == BPAGESZ && 0 <= index <= PAGESZ && closed && err && chan.state != Going
      && (forall j :: 0 <= j < chan.puts - 1 ==> chan.fate(j).None?)
      && chan.delivered <= stream && count == |stream|
    }

    lemma SealedIffValid()
      requires closed
      ensures Sealed() <==> Valid()
    {
    }

    /** The part of the page in use. */
    ghost function InPage(): seq<Byte>
      reads this`index, page
    {
      if 0 <= 4 * index <= page.Length then page[..4 * index] else []
    }

    constructor (c: Chan, p: array<Byte>)
      requires c.puts == 0 && c.delivered == [] && c.state == Going && p.Length == BPAGESZ
      ensures Valid() && chan == c && page == p && stream == [] && !err && !closed
    {
      chan, page, count, index, closed, err, why, stream := c, p, 0, 0, false, false, "", [];
    }

    /** if ~err then put the first n bytes of the page, latching a failure */
    method Put(n: nat)
      requires Buffered(n) && (closed ==> err)
      modifies this`err, this`why, chan`puts, chan`delivered
      ensures Buffered(0)
      ensures old(err) ==> err && chan.delivered == old(chan.delivered) && chan.puts == old(chan.puts)
    {
      if !err {
        var r := chan.Putw(page, n);
        if r.Some? {
          err := true;
          why := r.value;
        }
      }
    }

    /** Bytes of the page from k on replaced by b, and b written to the stream. */
    ghost method Extend(k: nat, b: seq<Byte>, was: seq<Byte>)
      requires k + |b| <= BPAGESZ == page.Length && |was| == BPAGESZ
      requires page[..k] == was[..k] && page[k..k + |b|] == b
      requires (forall j :: 0 <= j < chan.puts - 1 ==> chan.fate(j).None?)
      requires if err
               then chan.delivered <= stream && (!closed ==> chan.puts > 0 && chan.fate(chan.puts - 1) == Some(why))
               else chan.delivered + was[..k] == stream && (chan.puts > 0 ==> chan.fate(chan.puts - 1).None?)
      modifies this`stream
      ensures Buffered(k + |b|) && stream == old(stream) + b
    {
      stream := stream + b;
      assert page[..k + |b|] == page[..k] + b;
    }

    method ZeroByte(at: int)
      requires Buffered(at) && (closed ==> err) && at < BPAGESZ
      modifies this`stream, page
      ensures Buffered(at + 1) && stream == old(stream) + [0]
    {
      ghost var was := page[..];
      page[at] := 0;
      Extend(at, [0], was);
    }

    lemma Aligned(at: int, n: nat)
      requires (at - n) % 4 == 0
      ensures (at + Padding(n)) % 4 == 0
      ensures forall end :: at <= end <= at + Padding(n) && end % 4 == 0 ==> end == at + Padding(n)
    {
    }

    lemma BufferedIn(k: int)
      requires Buffered(k)
      ensures 0 <= k <= BPAGESZ == page.Length
    {
    }

    /** Zero bytes from byte at of the page up to a whole word. */
    method Pad(at: int, ghost n: nat) returns (end: int)
      requires Buffered(at) && (closed ==> err) && (at - n) % 4 == 0
      modifies this`stream, page
      ensures Buffered(end) && end % 4 == 0 && stream == old(stream) + Zeros(Padding(n))
    {
      hide Buffered, Padding;
      end := at;
      Aligned(at, n);
      while end % 4 != 0
        invariant Buffered(end) && at <= end <= at + Padding(n) && (closed ==> err)
        invariant stream == old(stream) + Zeros(end - at)
        decreases at + Padding(n) - end
      {
        BufferedIn(end);
        ZeroByte(end);
        end := end + 1;
        assert Zeros(end - 1 - at) + [0] == Zeros(end - at);
      }
    }

    /** One turn of the loop of boutput: as much of code from i as the page takes. */
    method Fill(at: int, code: seq<int>, i: int) returns (len: int)
      requires Buffered(at) && (closed ==> err) && at < BPAGESZ && 0 <= i < |code|
      modifies this`stream, page
      ensures 0 < len <= |code| - i && Buffered(at + len) && (closed ==> err)
      ensures stream == old(stream) + Bytes(code[i..i + len])
    {
      len := if |code| - i < BPAGESZ - at then |code| - i else BPAGESZ - at;
      ghost var was := page[..];
      forall k | 0 <= k < len { page[at + k] := code[i + k] % 256; }
      Extend(at, Bytes(code[i..i + len]), was);
    }

    lemma BytesOn(code: seq<int>, i: int, len: int, s: seq<Byte>)
      requires 0 <= i && 0 <= len && i + len <= |code|
      ensures s + Bytes(code[..i]) + Bytes(code[i..i + len]) == s + Bytes(code[..i + len])
    {
    }

    /** One turn of the loop of boutput, on a new page if this one is full. */
    method Turn(at: int, code: seq<int>, i: int) returns (next: int, len: int)
      requires Buffered(at) && (closed ==> err) && 0 <= i < |code|
      modifies this`err, this`why, this`stream, page, chan`puts, chan`delivered
      ensures 0 < len <= |code| - i && Buffered(next) && (closed ==> err)
      ensures next == len + (if at == BPAGESZ then 0 else at)
      ensures stream == old(stream) + Bytes(code[i..i + len])
      ensures old(err) ==> err && chan.delivered == old(chan.delivered) && chan.puts == old(chan.puts)
    {
      hide Buffered, Bytes;
      BufferedIn(at);
      next := at;
      if next == BPAGESZ {
        Put(BPAGESZ);
        next := 0;
      }
      len := Fill(next, code, i);
      next := next + len;
    }

    lemma TurnAligned(at: int, next: int, i: int, len: int)
      requires (at - i) % 4 == 0 && next == len + (if at == BPAGESZ then 0 else at)
      ensures (next - (i + len)) % 4 == 0
    {
    }

    /** The bytes of code, then zeros up to a whole word. */
    method Boutput(code: seq<int>)
      requires Steady()
      modifies this`index, this`err, this`why, this`stream, page, chan`puts, chan`delivered
      ensures Steady()
      ensures stream == old(stream) + (Bytes(code) + Zeros(Padding(|code|)))
      ensures old(err) ==> err && chan.delivered == old(chan.delivered) && chan.puts == old(chan.puts)
    {
      hide Bytes, Zeros, Padding, Buffered;
      var i, z, at := 0, |code|, index * 4;
      BytesOn(code, 0, 0, stream);
      while z > 0
        invariant 0 <= i <= |code| && z == |code| - i && Buffered(at) && (closed ==> err) && (at - i) % 4 == 0
        invariant stream == old(stream) + Bytes(code[..i])
        invariant old(err) ==> err && chan.delivered == old(chan.delivered) && chan.puts == old(chan.puts)
      {
        var next, len := Turn(at, code, i);
        BytesOn(code, i, len, old(stream));
        TurnAligned(at, next, i, len);
        z, at, i := z - len, next, i + len;
      }
      assert code[..i] == code;
      at := Pad(at, |code|);
      BufferedIn(at);
      index := at / 4;
    }

    /** One word of the page, holding two half words. */
    method Store2(at: int, left: int, right: int)
      requires Buffered(4 * at) && (closed ==> err) && at < PAGESZ
      modifies this`stream, page
      ensures Buffered(4 * (at + 1)) && stream == old(stream) + (HalfBytes(right) + HalfBytes(left))
    {
      ghost var was := page[..];
      page[4 * at] := right % 256;
      page[4 * at + 1] := right / 256 % 256;
      page[4 * at + 2] := left % 256;
      page[4 * at + 3] := left / 256 % 256;
      Extend(4 * at, HalfBytes(right) + HalfBytes(left), was);
    }

    /** The next word of the page, on a new page if this one is full. */
    method NextWord(at: int, left: int, right: int) returns (next: int)
      requires 0 <= at <= PAGESZ && Buffered(4 * at) && (closed ==> err)
      modifies this`err, this`why, this`stream, page, chan`puts, chan`delivered
      ensures next == (if at == PAGESZ then 1 else at + 1) && Buffered(4 * next) && (closed ==> err)
      ensures stream == old(stream) + (HalfBytes(right) + HalfBytes(left))
      ensures old(err) ==> err && chan.delivered == old(chan.delivered) && chan.puts == old(chan.puts)
    {
      hide Buffered, HalfBytes;
      next := at;
      if next == PAGESZ {
        Put(BPAGESZ);
        next := 0;
      }
      Store2(next, left, right);
      next := next + 1;
    }

    lemma HalvesOn(es: seq<int>, k: int, s: seq<Byte>)
      requires 0 <= k < |es|
      ensures Halves(es[..k + 1]) == Halves(es[..k]) + HalfBytes(es[k])
      ensures k + 1 < |es| ==>
                s + Halves(es[..k]) + (HalfBytes(es[k]) + HalfBytes(es[k + 1])) == s + Halves(es[..k + 2])
    {
      assert es[..k + 1][..k] == es[..k];
      if k + 1 < |es| { assert es[..k + 2][..k + 1] == es[..k + 1]; }
    }

    /** Half words in pairs, two to a word; an odd last one gets a zero half. */
    method Output(es: seq<int>)
      requires Steady()
      modifies this`index, this`err, this`why, this`stream, page, chan`puts, chan`delivered
      ensures Steady()
      ensures stream == old(stream) + (Halves(es) + Zeros(2 * (|es| % 2)))
      ensures old(err) ==> err && chan.delivered == old(chan.delivered) && chan.puts == old(chan.puts)
    {
      hide Buffered, HalfBytes, Halves, Zeros;
      NoHalves(stream);
      if es == [] {
        return;
      }
      var at, low, max := index, 0, |es| - 2;
      assert es[..0] == [];
      while low <= max
        invariant 0 <= low <= |es| && low % 2 == 0 && 0 <= at <= PAGESZ && Buffered(4 * at) && (closed ==> err)
        invariant stream == old(stream) + Halves(es[..low])
        invariant old(err) ==> err && chan.delivered == old(chan.delivered) && chan.puts == old(chan.puts)
      {
        at := NextWord(at, es[low + 1], es[low]);
        HalvesOn(es, low, old(stream));
        low := low + 2;
      }
      if low != max + 2 {
        at := NextWord(at, 0, es[low]);
        HalvesOn(es, low, []);
        LastHalf(es, old(stream));
      }
      assert es[..|es|] == es;
      if |es| % 2 == 0 { EvenHalves(es, old(stream)); }
      index := at;
    }

    /** Append a record; the answer is its byte offset in the stream. */
    method Write(base: int, code: seq<int>, es: seq<int>) returns (offset: int)
      requires Valid()
      modifies this`count, this`index, this`err, this`why, this`stream, page, chan`puts, chan`delivered
      ensures Valid() && offset == |old(stream)| && stream == old(stream) + Record(base, code, es)
      ensures old(err) ==> err && chan.delivered == old(chan.delivered) && chan.puts == old(chan.puts)
    {
      hide Buffered, HalfBytes, Bytes, Halves, Zeros, Padding, Steady;
      offset := count;
      count := count + ((|code| + 7) / 4 + (|es| + 1) / 2) * 4;
      RecordSize(base, code, es);
      Word(base);
      Boutput(code);
      Output(es);
    }

    /** The first word of a record. */
    method Word(base: int)
      requires Steady()
      modifies this`index, this`err, this`why, this`stream, page, chan`puts, chan`delivered
      ensures Steady() && stream == old(stream) + WordBytes(base)
      ensures old(err) ==> err && chan.delivered == old(chan.delivered) && chan.puts == old(chan.puts)
    {
      hide Buffered, HalfBytes;
      index := NextWord(index, base / 65536, base);
    }

    /** Put what the page holds and hand out the channel underneath. */
    method GetChan() returns (c: Chan)
      requires Valid()
      modifies this`index, this`err, this`why, chan`puts, chan`delivered
      ensures Valid() && c == chan
      ensures !err ==> chan.delivered == stream
      ensures old(err) ==> err && chan.delivered == old(chan.delivered) && chan.puts == old(chan.puts)
    {
      if index > 0 {
        Put(4 * index);
        index := 0;
      }
      c := chan;
    }

    method Size() returns (n: int)
      requires Valid()
      ensures n == |stream|
    {
      n := count;
    }

    /** Put the rest, end the channel underneath, and signal the first failure;
        closing again does nothing. */
    method Close() returns (r: Outcome)
      requires Valid()
      modifies this`err, this`why, this`closed, chan
      ensures Valid() && Sealed()
      ensures old(closed) ==> r == None && chan.delivered == old(chan.delivered) && chan.puts == old(chan.puts)
      ensures !old(closed) && old(err) ==>
                r == Some(old(why)) && chan.delivered == old(chan.delivered) && chan.puts == old(chan.puts)
      ensures !old(err) && r.None? ==> chan.delivered == stream && chan.state == Closed && chan.endFate.None?
      ensures !old(err) && r.Some? ==>
                if chan.puts > 0 && chan.fate(chan.puts - 1).Some?
                then r == chan.fate(chan.puts - 1) && chan.state == Aborted
                else r == chan.endFate && chan.state == Closed
    {
      r := None;
      if closed {
        return;
      }
      if index > 0 {
        Put(4 * index);
      }
      r := End();
      SealedIffValid();
    }

    /** Abort or close the channel underneath. */
    method End() returns (r: Outcome)
      requires Buffered(0) && !closed && 0 <= index <= PAGESZ && count == |stream|
      modifies this`err, this`why, this`closed, chan`state
      ensures Sealed()
      ensures if old(err) then r == Some(old(why)) && chan.state == Aborted
              else r == chan.endFate && chan.state == Closed
    {
      r := None;
      var e;
      if err {
        e := chan.Abort();
      } else {
        e := chan.Close();
      }
      if e.Some? && !err {
        err := true;
        why := e.value;
      }
      if err { r := Some(why); }
      why := "channel is closed";
      closed := true;
      err := true;
    }
  }

  // ----- all channels, sharing one spare page -----

  /** The cluster with its own variables: the page of the channel closed last
      is kept for the next one opened. */
  class CodeChans {
    var isfree: bool
    var free: array<Byte>
    ghost var chans: set<CodeChan>

    ghost predicate Valid()
      reads this, chans, set c | c in chans :: c.page, set c | c in chans :: c.chan
    {
      && (forall c :: c in chans && c.closed ==> c.Sealed())
      && (forall c :: c in chans && !c.closed ==> c.Valid())
      && Apart()
    }

    /** No two channels in use share a page or a channel underneath, and the
        spare page is none of theirs. */
    ghost predicate Apart()
      reads this, chans`closed
    {
      && (isfree ==> free.Length == BPAGESZ)
      && (forall c, d :: c in chans && d in chans && c != d ==> c.chan != d.chan)
      && (forall c, d :: c in chans && d in chans && c != d && !c.closed && !d.closed ==> c.page != d.page)
      && (isfree ==> forall c :: c in chans && !c.closed ==> c.page != free)
    }

    constructor ()
      ensures Valid() && chans == {}
    {
      isfree, free, chans := false, new Byte[0], {};
    }

    method TakePage() returns (p: array<Byte>)
      requires Valid()
      modifies this`isfree
      ensures Valid() && !isfree && p.Length == BPAGESZ && forall c :: c in chans && !c.closed ==> c.page != p
      ensures if old(isfree) then p == old(free) else fresh(p)
    {
      hide CodeChan.Valid, CodeChan.Sealed;
      if isfree {
        p := free;
        isfree := false;
      } else {
        p := new Byte[BPAGESZ];
      }
    }

    /** Nothing happens if the channel underneath cannot be opened, for the
        reason that opens gives. */
    method Open(opens: Outcome, fate: nat -> Outcome, endFate: Outcome) returns (r: Option<CodeChan>, why: Outcome)
      requires Valid()
      modifies this
      ensures Valid() && why == opens && (r.Some? <==> opens.None?)
      ensures r.None? ==> chans == old(chans) && isfree == old(isfree) && free == old(free)
      ensures r.Some? ==>
                var c := r.value;
                && fresh(c) && fresh(c.chan) && chans == old(chans) + {c}
                && c.stream == [] && !c.err && !c.closed && c.chan.fate == fate && c.chan.endFate == endFate
                && c.page.Length == 8192
                && if old(isfree) then c.page == old(free) else fresh(c.page)
    {
      hide CodeChan.Valid, CodeChan.Sealed;
      if opens.Some? { return None, opens; }
      var c := NewChan(fate, endFate);
      return Some(c), None;
    }

    method NewChan(fate: nat -> Outcome, endFate: Outcome) returns (c: CodeChan)
      requires Valid()
      modifies this
      ensures Valid() && fresh(c) && fresh(c.chan) && chans == old(chans) + {c}
      ensures c.stream == [] && !c.err && !c.closed && c.chan.fate == fate && c.chan.endFate == endFate
      ensures c.page.Length == 8192
      ensures if old(isfree) then c.page == old(free) else fresh(c.page)
    {
      hide CodeChan.Valid, CodeChan.Sealed;
      var chan := new Chan(fate, endFate);
      var page := TakePage();
      c := new CodeChan(chan, page);
      chans := chans + {c};
    }

    /** Until an error is latched a channel needs what it left in its page. */
    twostate lemma Needs(d: CodeChan)
      requires old(d.Valid()) && unchanged(d) && unchanged(d.chan)
      ensures d.Valid() <==> d.err || d.InPage() == old(d.InPage())
    {
      if !d.err {
        assert old(d.chan.delivered + d.InPage() == d.stream);
        if d.Valid() { assert d.InPage() == d.stream[|d.chan.delivered|..] == old(d.InPage()); }
      }
    }

    /** Writing a channel in use disturbs no other. Writing a closed one puts
        nothing; it disturbs none if no channel in use has taken over its page,
        and otherwise exactly that one, if it does not find there what it left. */
    method Write(c: CodeChan, base: int, code: seq<int>, es: seq<int>) returns (offset: int)
      requires Valid() && c in chans
      modifies c, c.page, c.chan
      ensures offset == |old(c.stream)| && c.stream == old(c.stream) + Record(base, code, es)
      ensures c.closed == old(c.closed) && (old(c.err) ==> c.err && c.chan.delivered == old(c.chan.delivered))
      ensures Valid() <==> forall d :: d in chans && d != c && !d.closed && d.page == c.page ==>
                             d.err || d.InPage() == old(d.InPage())
      ensures !old(c.closed) ==> Valid()
      ensures (forall d :: d in chans && d != c && !old(d.closed) ==> d.page != c.page) ==> Valid()
    {
      hide CodeChan.Valid, CodeChan.Sealed, CodeChan.InPage, Record;
      if c.closed { c.SealedIffValid(); }
      offset := c.Write(base, code, es);
      if c.closed { c.SealedIffValid(); }
      forall d | d in chans && d != c && !d.closed
        ensures d.Valid() <==> d.page != c.page || d.err || d.InPage() == old(d.InPage())
      {
        if d.page == c.page { Needs(d); }
      }
    }

    method GetChan(c: CodeChan) returns (k: Chan)
      requires Valid() && c in chans
      modifies c, c.chan
      ensures Valid() && k == c.chan && c.stream == old(c.stream) && c.closed == old(c.closed)
      ensures !c.err ==> k.delivered == c.stream
      ensures old(c.err) ==> c.err && k.delivered == old(c.chan.delivered)
    {
      hide CodeChan.Valid, CodeChan.Sealed;
      if c.closed { c.SealedIffValid(); }
      k := c.GetChan();
      if c.closed { c.SealedIffValid(); }
    }

    /** close, any number of times, any channel; its page becomes the spare one. */
    method Close(c: CodeChan) returns (r: Outcome)
      requires Valid() && c in chans
      modifies this, c, c.chan
      ensures Valid() && c.closed && chans == old(chans) && c.stream == old(c.stream)
      ensures old(c.closed) ==> r == None && isfree == old(isfree) && free == old(free)
      ensures !old(c.closed) ==> isfree && free == c.page
      ensures !old(c.closed) && old(c.err) ==> r == Some(old(c.why))
      ensures !old(c.closed) && !old(c.err) ==>
                if r.None? then c.chan.delivered == c.stream && c.chan.state == Closed && c.chan.endFate.None?
                else if c.chan.puts > 0 && c.chan.fate(c.chan.puts - 1).Some?
                then r == c.chan.fate(c.chan.puts - 1) && c.chan.state == Aborted
                else r == c.chan.endFate && c.chan.state == Closed
    {
      hide CodeChan.Valid, CodeChan.Sealed;
      if c.closed {
        return None;
      }
      PageLength(c);
      r := c.Close();
      Spare(c.page);
    }

    /** A page that no channel in use has is kept for the next one. */
    method Spare(p: array<Byte>)
      requires Valid() && p.Length == BPAGESZ && forall c :: c in chans && !c.closed ==> c.page != p
      modifies this`isfree, this`free
      ensures Valid() && isfree && free == p
    {
      hide CodeChan.Valid, CodeChan.Sealed;
      free := p;
      isfree := true;
    }

    lemma PageLength(c: CodeChan)
      requires c.Valid()
      ensures c.page.Length == BPAGESZ
    {
    }
  }
}
