/**
 * The null-terminated string table of the compact store.  The encoder writes
 * every word followed by '\0' (the word file holds all words, the data file
 * the first nrwords of them) and counts the bytes of the latter in nchars;
 * the reader rebuilds the offset of each word by scanning for '\0' from
 * position 1.
 */
module StringTable {
  import opened Basics

  /** `fwrite(w.c_str(), 1, w.size() + 1)` for each word of ws, in order. */
  function Table(ws: seq<seq<byte>>): seq<byte>
  {
    if ws == [] then [] else Table(ws[..|ws| - 1]) + ws[|ws| - 1] + [0]
  }

  /** The sum of (length + 1) over ws. */
  function TableSize(ws: seq<seq<byte>>): nat
  {
    if ws == [] then 0 else TableSize(ws[..|ws| - 1]) + |ws[|ws| - 1]| + 1
  }

  /** The bytes written are exactly the bytes counted. */
  lemma {:induction false} TableSizeIsLength(ws: seq<seq<byte>>)
    ensures |Table(ws)| == TableSize(ws)
    decreases |ws|
  {
    if ws != [] {
      TableSizeIsLength(ws[..|ws| - 1]);
    }
  }

  lemma {:induction false} TableAppend(a: seq<seq<byte>>, b: seq<seq<byte>>)
    ensures Table(a + b) == Table(a) + Table(b)
    decreases |b|
  {
    if b == [] {
      assert a + b == a;
    } else {
      var b' := b[..|b| - 1];
      assert (a + b)[..|a + b| - 1] == a + b';
      assert (a + b)[|a + b| - 1] == b[|b| - 1];
      TableAppend(a, b');
    }
  }

  /**
   * The loop that writes the word file: every word goes to the word file,
   * and nchars counts (length + 1) for the first nrwords of them.
   */
  method WriteWords(words: seq<seq<byte>>, nrwords: int) returns (fw: seq<byte>, nchars: int)
    ensures fw == Table(words)
    ensures nchars == TableSize(words[..Clamp(nrwords, |words|)])
  {
    fw, nchars := [], 0;
    var i := 0;
    while i < |words|
      invariant 0 <= i <= |words|
      invariant fw == Table(words[..i])
      invariant nchars == TableSize(words[..Clamp(Clamp(nrwords, |words|), i)])
    {
      assert words[..i + 1][..i] == words[..i];
      fw := fw + words[i] + [0];
      if i < nrwords {
        assert words[..Clamp(Clamp(nrwords, |words|), i + 1)] == words[..i + 1];
        nchars := nchars + (|words[i]| + 1);
      } else {
        assert Clamp(Clamp(nrwords, |words|), i + 1) == Clamp(Clamp(nrwords, |words|), i);
      }
      i := i + 1;
    }
    assert words[..i] == words;
  }

  /** min(max(n, 0), bound). */
  function Clamp(n: int, bound: nat): (r: nat)
    ensures r <= bound
    ensures 0 <= n <= bound ==> r == n
  {
    if n < 0 then 0 else if n < bound then n else bound
  }

  // ---------------------------------------------------------------------
  // The reader's scan

  /** The first '\0' at or after pos. */
  function NextNul(chars: seq<byte>, pos: nat): (r: Option<nat>)
    ensures r.Some? ==> pos <= r.value < |chars| && chars[r.value] == 0
    ensures r.Some? ==> forall k :: pos <= k < r.value ==> chars[k] != 0
    ensures r.None? ==> forall k :: pos <= k < |chars| ==> chars[k] != 0
    decreases |chars| - pos
  {
    if pos >= |chars| then None
    else if chars[pos] == 0 then Some(pos)
    else NextNul(chars, pos + 1)
  }

  /** The offsets of the next k words when the scan stands at pos; None when it runs off the table. */
  function ScanFrom(chars: seq<byte>, pos: nat, k: nat): Option<seq<nat>>
    decreases k
  {
    if k == 0 then Some([])
    else match NextNul(chars, pos)
      case None => None
      case Some(p) =>
        match ScanFrom(chars, p + 1, k - 1)
        case None => None
        case Some(rest) => Some([p + 1] + rest)
  }

  /** The words vector after load's scan: words[0] is 0, the scan starts at position 1. */
  function Offsets(chars: seq<byte>, nrwords: nat): Option<seq<nat>>
    requires nrwords >= 1
  {
    match ScanFrom(chars, 1, nrwords - 1)
    case None => None
    case Some(rest) => Some([0] + rest)
  }

  function Prepend(p: seq<nat>, r: Option<seq<nat>>): Option<seq<nat>>
  {
    match r
    case None => None
    case Some(s) => Some(p + s)
  }

  /**
   * The scan of load: `words[0] = chars.data(); pos = 1;` then for each
   * further word skip to the next '\0' and step past it.  ok is false when
   * the scan would read past the end of chars.
   */
  method ScanWords(chars: seq<byte>, nrwords: nat) returns (ok: bool, words: seq<nat>)
    requires nrwords >= 1
    ensures ok <==> Offsets(chars, nrwords).Some?
    ensures ok ==> words == Offsets(chars, nrwords).value
  {
    var a := new nat[nrwords];
    a[0] := 0;
    var pos: nat := 1;
    var i := 1;
    assert a[..1] == [0];
    while i < nrwords
      invariant 1 <= i <= nrwords
      invariant Offsets(chars, nrwords) == Prepend(a[..i], ScanFrom(chars, pos, nrwords - i))
    {
      ghost var start := pos;
      while pos < |chars| && chars[pos] != 0
        invariant start <= pos
        invariant NextNul(chars, start) == NextNul(chars, pos)
        decreases |chars| - pos
      {
        pos := pos + 1;
      }
      if pos >= |chars| {
        assert NextNul(chars, pos) == None;
        return false, [];
      }
      ghost var old_a := a[..i];
      ScanStep(chars, start, pos, nrwords - i, old_a);
      pos := pos + 1;
      a[i] := pos;
      assert a[..i + 1] == old_a + [pos];
      i := i + 1;
    }
    return true, a[..];
  }

  lemma ScanStep(chars: seq<byte>, start: nat, p: nat, k: nat, prefix: seq<nat>)
    requires k >= 1 && NextNul(chars, start) == Some(p)
    ensures Prepend(prefix, ScanFrom(chars, start, k)) == Prepend(prefix + [p + 1], ScanFrom(chars, p + 1, k - 1))
  {
    match ScanFrom(chars, p + 1, k - 1)
    case None =>
    case Some(rest) =>
      assert prefix + ([p + 1] + rest) == prefix + [p + 1] + rest;
  }

  // ---------------------------------------------------------------------
  // What the scan finds

  /** The number of '\0' bytes in chars[a..b]. */
  function NulCount(chars: seq<byte>, a: nat, b: nat): nat
    requires a <= b <= |chars|
    decreases b - a
  {
    if a == b then 0 else NulCount(chars, a, b - 1) + (if chars[b - 1] == 0 then 1 else 0)
  }

  lemma {:induction false} NulCountSplit(chars: seq<byte>, a: nat, b: nat, c: nat)
    requires a <= b <= c <= |chars|
    ensures NulCount(chars, a, c) == NulCount(chars, a, b) + NulCount(chars, b, c)
    decreases c - b
  {
    if b < c {
      NulCountSplit(chars, a, b, c - 1);
    }
  }

  lemma {:induction false} NoNul(chars: seq<byte>, a: nat, b: nat)
    requires a <= b <= |chars|
    requires forall k :: a <= k < b ==> chars[k] != 0
    ensures NulCount(chars, a, b) == 0
    decreases b - a
  {
    if a < b {
      NoNul(chars, a, b - 1);
    }
  }

  lemma {:induction false} ScanFromCounts(chars: seq<byte>, pos: nat, k: nat)
    requires ScanFrom(chars, pos, k).Some?
    ensures var s := ScanFrom(chars, pos, k).value;
      |s| == k &&
      forall j :: 0 <= j < k ==>
        pos < s[j] <= |chars| && chars[s[j] - 1] == 0 && NulCount(chars, pos, s[j]) == j + 1
    decreases k
  {
    if k > 0 {
      var p := NextNul(chars, pos).value;
      ScanFromCounts(chars, p + 1, k - 1);
      var s := ScanFrom(chars, pos, k).value;
      var rest := ScanFrom(chars, p + 1, k - 1).value;
      assert s == [p + 1] + rest;
      NoNul(chars, pos, p);
      NulCountSplit(chars, pos, p, p + 1);
      forall j | 0 <= j < k
        ensures pos < s[j] <= |chars| && chars[s[j] - 1] == 0 && NulCount(chars, pos, s[j]) == j + 1
      {
        if j > 0 {
          assert s[j] == rest[j - 1];
          NulCountSplit(chars, pos, p + 1, s[j]);
        }
      }
    }
  }

  lemma {:induction false} ScanFromFails(chars: seq<byte>, pos: nat, k: nat)
    requires 1 <= pos <= |chars|
    requires ScanFrom(chars, pos, k).None?
    ensures NulCount(chars, pos, |chars|) < k
    decreases k
  {
    match NextNul(chars, pos)
    case None =>
      NoNul(chars, pos, |chars|);
    case Some(p) =>
      NoNul(chars, pos, p);
      NulCountSplit(chars, pos, p, p + 1);
      NulCountSplit(chars, pos, p + 1, |chars|);
      ScanFromFails(chars, p + 1, k - 1);
  }

  lemma {:induction false} ScanFromSucceeds(chars: seq<byte>, pos: nat, k: nat)
    requires pos <= |chars|
    requires ScanFrom(chars, pos, k).Some?
    ensures NulCount(chars, pos, |chars|) >= k
    decreases k
  {
    if k > 0 {
      var p := NextNul(chars, pos).value;
      NulCountSplit(chars, pos, p + 1, |chars|);
      NulCountSplit(chars, pos, p, p + 1);
      ScanFromSucceeds(chars, p + 1, k - 1);
    }
  }

  /**
   * The scan succeeds exactly when chars[1..] holds at least nrwords - 1
   * '\0' bytes, and then words[0] == 0 and, for i >= 1, words[i] is the
   * position just after the i-th '\0' counted from position 1.
   */
  lemma OffsetsAfterNuls(chars: seq<byte>, nrwords: nat)
    requires nrwords >= 1 && |chars| >= 1
    ensures Offsets(chars, nrwords).Some? <==> NulCount(chars, 1, |chars|) >= nrwords - 1
    ensures Offsets(chars, nrwords).Some? ==>
      var w := Offsets(chars, nrwords).value;
      |w| == nrwords && w[0] == 0 &&
      forall i :: 1 <= i < nrwords ==>
        1 < w[i] <= |chars| && chars[w[i] - 1] == 0 && NulCount(chars, 1, w[i]) == i
  {
    if ScanFrom(chars, 1, nrwords - 1).Some? {
      ScanFromCounts(chars, 1, nrwords - 1);
      ScanFromSucceeds(chars, 1, nrwords - 1);
    } else {
      ScanFromFails(chars, 1, nrwords - 1);
    }
  }

  // ---------------------------------------------------------------------
  // The scan over the table the encoder writes

  /** Where word k of ws starts in Table(ws). */
  function Start(ws: seq<seq<byte>>, k: nat): nat
    requires k <= |ws|
  {
    TableSize(ws[..k])
  }

  /** The C string at offset off: the bytes up to the next '\0', when there is one. */
  function CStringAt(chars: seq<byte>, off: nat): Option<seq<byte>>
  {
    match NextNul(chars, off)
    case None => None
    case Some(p) => Some(chars[off..p])
  }

  ghost predicate NoNulIn(w: seq<byte>)
  {
    forall t :: 0 <= t < |w| ==> w[t] != 0
  }

  lemma TableSplit(ws: seq<seq<byte>>, j: nat)
    requires j < |ws|
    ensures Table(ws) == Table(ws[..j]) + ws[j] + [0] + Table(ws[j + 1..])
    ensures |Table(ws[..j])| == Start(ws, j)
    ensures Start(ws, j + 1) == Start(ws, j) + |ws[j]| + 1
  {
    assert ws == ws[..j] + [ws[j]] + ws[j + 1..];
    TableAppend(ws[..j] + [ws[j]], ws[j + 1..]);
    TableAppend(ws[..j], [ws[j]]);
    var one: seq<seq<byte>> := [ws[j]];
    assert Table(one) == ws[j] + [0] by {
      assert one[..0] == [];
    }
    TableSizeIsLength(ws[..j]);
    assert ws[..j + 1][..j] == ws[..j];
  }

  /** Inside the table, the '\0' after word j is at the end of word j. */
  lemma NulAfterWord(ws: seq<seq<byte>>, j: nat, from: nat)
    requires j < |ws| && NoNulIn(ws[j])
    requires Start(ws, j) <= from <= Start(ws, j) + |ws[j]|
    ensures NextNul(Table(ws), from) == Some(Start(ws, j + 1) - 1)
    ensures CStringAt(Table(ws), Start(ws, j)) == Some(ws[j])
  {
    var chars := Table(ws);
    var s := Start(ws, j);
    TableSplit(ws, j);
    var e := s + |ws[j]|;
    assert chars[e] == 0;
    forall k | s <= k < e
      ensures chars[k] != 0
    {
      assert chars[k] == ws[j][k - s];
    }
    var n := NextNul(chars, from);
    if n.None? || n.value != e {
      assert false;
    }
    var m := NextNul(chars, s);
    if m.None? || m.value != e {
      assert false;
    }
    assert chars[s..e] == ws[j];
  }

  /** Start(ws, j), ..., Start(ws, j + k - 1). */
  function StartsFrom(ws: seq<seq<byte>>, j: nat, k: nat): (r: seq<nat>)
    requires j + k <= |ws|
    ensures |r| == k
    ensures forall t :: 0 <= t < k ==> r[t] == Start(ws, j + t)
    decreases k
  {
    if k == 0 then [] else [Start(ws, j)] + StartsFrom(ws, j + 1, k - 1)
  }

  lemma {:induction false} ScanTable(ws: seq<seq<byte>>, j: nat)
    requires 1 <= j < |ws|
    requires forall t :: 0 <= t < |ws| ==> NoNulIn(ws[t])
    ensures ScanFrom(Table(ws), Start(ws, j), |ws| - 1 - j) == Some(StartsFrom(ws, j + 1, |ws| - 1 - j))
    decreases |ws| - j
  {
    var k := |ws| - 1 - j;
    var chars := Table(ws);
    if k > 0 {
      NulAfterWord(ws, j, Start(ws, j));
      assert NextNul(chars, Start(ws, j)) == Some(Start(ws, j + 1) - 1);
      ScanTable(ws, j + 1);
    }
  }

  /**
   * Reading back the table the encoder writes for nrwords words: when the
   * first word is non-empty and no word holds a '\0' byte, the scan succeeds
   * and words[k] is where word k starts.
   */
  lemma OffsetsOfTable(ws: seq<seq<byte>>)
    requires |ws| >= 1 && |ws[0]| >= 1
    requires forall t :: 0 <= t < |ws| ==> NoNulIn(ws[t])
    ensures Offsets(Table(ws), |ws|) == Some(StartsFrom(ws, 0, |ws|))
  {
    var chars := Table(ws);
    var n := |ws|;
    assert Start(ws, 0) == 0;
    if n > 1 {
      NulAfterWord(ws, 0, 1);
      assert NextNul(chars, 1) == Some(Start(ws, 1) - 1);
      ScanTable(ws, 1);
      assert ScanFrom(chars, 1, n - 1) == Some(StartsFrom(ws, 1, n - 1));
    }
  }

  /** ... so the C string at words[k] is word k. */
  lemma WordsOfTable(ws: seq<seq<byte>>, k: nat)
    requires |ws| >= 1 && |ws[0]| >= 1
    requires forall t :: 0 <= t < |ws| ==> NoNulIn(ws[t])
    requires k < |ws|
    ensures Offsets(Table(ws), |ws|) == Some(StartsFrom(ws, 0, |ws|))
    ensures CStringAt(Table(ws), StartsFrom(ws, 0, |ws|)[k]) == Some(ws[k])
  {
    OffsetsOfTable(ws);
    NulAfterWord(ws, k, Start(ws, k));
  }

  /** When the first word is empty the scan skips a word: words[1] is the start of word 2. */
  lemma EmptyFirstWordSkips()
    ensures Offsets(Table([[], [0x61], [0x62]]), 2) == Some([0, 3])
  {
    var ws: seq<seq<byte>> := [[], [0x61], [0x62]];
    var w0, w1 := ws[..1], ws[..2];
    assert w0[..0] == [];
    assert Table(w0) == [0];
    assert w1[..1] == w0;
    assert Table(w1) == [0, 0x61, 0];
    var chars := Table(ws);
    assert chars == [0, 0x61, 0, 0x62, 0];
    assert NextNul(chars, 1) == Some(2);
    var none: seq<nat> := [];
    assert ScanFrom(chars, 3, 0) == Some(none);
    assert [3] + none == [3];
    assert ScanFrom(chars, 1, 1) == Some([3]);
    assert [0] + [3] == [0, 3];
    assert Offsets(chars, 2) == Some([0, 3]);
  }
}
