/**
 * The noise bit buffer and the DRBG module flags of pal_plat_drbg_sotp.c.
 *
 * `g_noise` packs collected entropy bits, in arrival order, into an array of
 * twelve `int32_t` words: flat bit `p` of the buffer is bit `p % 32` of word
 * `p / 32`. A word is modelled by its 32-bit pattern as a number below 2^32,
 * and the whole buffer by the number `Value(words)` whose binary digits are
 * the flat bits, so "n bits appended at the fill count c" is the equation
 * `Value(after) == Value(before) + bits * 2^c`.
 *
 * The module is modelled with one thread: the atomic increments are plain
 * updates, and a writer or reader never runs beside another.
 */
module Noise {
  import opened Sotp
  import opened Bits

  /** `PAL_NOISE_BUFFER_LEN` in the default configuration (48 bytes). */
  const BUFFER_LEN: nat := 12
  /** `PAL_INT32_BITS` */
  const INT32_BITS: nat := 32
  /** `PAL_NOISE_SIZE_BITS` */
  const SIZE_BITS: nat := 384
  /** `CHAR_BIT` */
  const CHAR_BIT: nat := 8

  // ---------------------------------------------------------------------------
  // The buffer as one string of bits
  // ---------------------------------------------------------------------------

  /** The words read as one little-endian number: flat bit `p` is bit `p % 32` of word `p / 32`. */
  function Value(ws: seq<u32>): nat {
    if ws == [] then 0 else ws[0] + 0x1_0000_0000 * Value(ws[1..])
  }

  /** `n` words hold `32 * n` bits. */
  lemma {:induction false} ValueBound(ws: seq<u32>)
    ensures Value(ws) < Pow2(32 * |ws|)
  {
    if ws != [] {
      ValueBound(ws[1..]);
      Pow2Word();
      Pow2Add(32, 32 * (|ws| - 1));
    }
  }

  /** Adding to one word without a carry out of it adds to the flat value in place. */
  lemma {:induction false} ValueAdd(ws: seq<u32>, i: nat, x: nat)
    requires i < |ws| && ws[i] + x < WORD
    ensures Value(ws[i := ws[i] + x]) == Value(ws) + x * Pow2(32 * i)
    decreases i
  {
    var ws' := ws[i := ws[i] + x];
    if i == 0 {
      assert ws'[1..] == ws[1..];
    } else {
      assert ws'[1..] == ws[1..][i - 1 := ws[i] + x];
      ValueAdd(ws[1..], i - 1, x);
      Pow2Word();
      Pow2Add(32, 32 * (i - 1));
      MulAssoc(x, WORD, Pow2(32 * (i - 1)));
    }
  }

  /** When no flat bit at or above `place = 32 * i + o` is set, word `i` holds no bit at or above `o`. */
  lemma {:induction false} ValueBelow(ws: seq<u32>, i: nat, o: nat, place: nat)
    requires i < |ws| && place == 32 * i + o && Value(ws) < Pow2(place)
    ensures ws[i] < Pow2(o)
    decreases i
  {
    if i > 0 {
      Pow2Word();
      Pow2Sum(32, place - 32, place);
      ValueBelow(ws[1..], i - 1, o, place - 32);
    }
  }

  /** The words before word `i` carry the low `p = 32 * i` flat bits, the words from `i` on the rest. */
  lemma {:induction false} ValueSplit(ws: seq<u32>, i: nat, p: nat)
    requires i <= |ws| && p == 32 * i
    ensures Value(ws) == Join(Value(ws[..i]), Value(ws[i..]), p)
    decreases i
  {
    JoinDef(Value(ws[..i]), Value(ws[i..]), p);
    if i == 0 {
      assert ws[..0] == [] && ws[0..] == ws;
    } else {
      ValueSplit(ws[1..], i - 1, p - 32);
      JoinDef(Value(ws[1..][..i - 1]), Value(ws[1..][i - 1..]), p - 32);
      assert ws[1..][..i - 1] == ws[..i][1..];
      assert ws[1..][i - 1..] == ws[i..];
      Pow2Word();
      Pow2Sum(32, p - 32, p);
      Lift(Value(ws), ws[0], WORD, Value(ws[1..]), Value(ws[..i][1..]), Pow2(p - 32), Value(ws[i..]),
           Pow2(p), Value(ws[..i]));
    }
  }

  /** The arithmetic of `ValueSplit`: one more digit below a split number. */
  lemma Lift(v: int, w0: int, word: int, vt: int, a: int, p1: int, t: int, p: int, va: int)
    requires v == w0 + word * vt && vt == a + p1 * t && va == w0 + word * a && p == word * p1
    ensures v == va + p * t
  {
    MulAdd(word, a, p1 * t);
    MulCongr(word, p1, p, t);
  }

  /** An all-zero buffer holds no bit. */
  lemma {:induction false} ValueZero(ws: seq<u32>)
    requires forall k :: 0 <= k < |ws| ==> ws[k] == 0
    ensures Value(ws) == 0
  {
    if ws != [] {
      ValueZero(ws[1..]);
    }
  }

  /** The low bits of a word, `x & ((1 << w) - 1)`. */
  lemma FieldLow(x: nat, w: nat)
    ensures Field(x, 0, w) == Low(x, w)
  {
    assert Drop(x, 0) == x;
  }

  /**
   * Around bit `b` of word `q`: the low `r = 32 * q + b` flat bits are the
   * first `q` words and the low `b` bits of word `q`; the rest are the high
   * bits of word `q` and the words after it.
   */
  lemma ValueAround(ws: seq<u32>, q: nat, b: nat, p: nat, r: nat)
    requires q < |ws| && b <= 32 && p == 32 * q && r == p + b
    ensures Join(Value(ws[..q]), Low(ws[q], b), p) < Pow2(r)
    ensures Value(ws) == Join(Join(Value(ws[..q]), Low(ws[q], b), p),
                              Join(Drop(ws[q], b), Value(ws[q + 1..]), 32 - b), r)
  {
    ValueSplit(ws, q, p);
    JoinDef(Value(ws[..q]), Value(ws[q..]), p);
    JoinDef(Value(ws[..q]), Low(ws[q], b), p);
    JoinDef(Drop(ws[q], b), Value(ws[q + 1..]), 32 - b);
    JoinDef(Join(Value(ws[..q]), Low(ws[q], b), p), Join(Drop(ws[q], b), Value(ws[q + 1..]), 32 - b), r);
    ValueBound(ws[..q]);
    assert ws[q..][1..] == ws[q + 1..];
    DropMod(ws[q], b);
    Pow2Word();
    Pow2Add(b, 32 - b);
    Pow2Sum(p, b, r);
    Regroup(Value(ws), Value(ws[..q]), Pow2(p), Value(ws[q..]), ws[q], Value(ws[q + 1..]),
            Pow2(b), Pow2(32 - b), WORD, Drop(ws[q], b), Low(ws[q], b), Pow2(r),
            Join(Value(ws[..q]), Low(ws[q], b), p), Join(Drop(ws[q], b), Value(ws[q + 1..]), 32 - b));
    LowBound(Value(ws[..q]), Pow2(p), Low(ws[q], b), Pow2(b), Pow2(r),
             Join(Value(ws[..q]), Low(ws[q], b), p));
  }

  /**
   * The arithmetic of `ValueAround`: a word `w = pb * dw + m` at place `p`,
   * followed by `hi` at place `p * word`, regrouped around place `p * pb`.
   */
  lemma Regroup(v: int, low: int, p: int, t: int, w: int, hi: int, pb: int, pr: int, word: int, dw: int, m: int, ppb: int,
                lo': int, hi': int)
    requires v == low + p * t && t == w + word * hi
    requires w == pb * dw + m && pb * pr == word && p * pb == ppb
    requires lo' == low + p * m && hi' == dw + pr * hi
    ensures v == lo' + ppb * hi'
  {
    calc {
      t;
      { MulCongr(pb, pr, word, hi); }
      pb * dw + m + pb * (pr * hi);
      { MulAdd(pb, dw, pr * hi); }
      m + pb * (dw + pr * hi);
    }
    MulAdd(p, m, pb * (dw + pr * hi));
    MulCongr(p, pb, ppb, dw + pr * hi);
  }

  /** Two digits, in base `p` and then `pb`, stay below `p * pb`. */
  lemma LowBound(low: int, p: int, m: int, pb: int, ppb: int, lo': int)
    requires 0 <= low < p && 0 <= m < pb && p * pb == ppb && lo' == low + p * m
    ensures lo' < ppb
  {
    MulLe(p, m, pb - 1);
    MulAdd(p, pb, -1);
  }

  /**
   * The low `t' = 32 * i + w` bits of a word string are its low `t = 32 * i`
   * bits and the low `w` bits of word `i`.
   */
  lemma ValuePrefixBits(ws: seq<u32>, i: nat, w: nat, t: nat, t': nat)
    requires i < |ws| && w <= 32 && t == 32 * i && t' == t + w
    ensures Low(Value(ws), t') == Join(Low(Value(ws), t), Field(ws[i], 0, w), t)
  {
    PrefixPartial(ws, i, w, t, t');
    PrefixWords(ws, i, t);
    FieldLow(ws[i], w);
  }

  /** The low `r = 32 * i + w` bits of a word string, as words and bits. */
  lemma PrefixPartial(ws: seq<u32>, i: nat, w: nat, p: nat, r: nat)
    requires i < |ws| && w <= 32 && p == 32 * i && r == p + w
    ensures Low(Value(ws), r) == Join(Value(ws[..i]), Low(ws[i], w), p)
  {
    ValueAround(ws, i, w, p, r);
    GlueLow(Join(Value(ws[..i]), Low(ws[i], w), p), Join(Drop(ws[i], w), Value(ws[i + 1..]), 32 - w), r);
  }

  /** The low `p = 32 * i` bits of a word string are its first `i` words. */
  lemma PrefixWords(ws: seq<u32>, i: nat, p: nat)
    requires i <= |ws| && p == 32 * i
    ensures Low(Value(ws), p) == Value(ws[..i])
  {
    ValueSplit(ws, i, p);
    ValueBound(ws[..i]);
    GlueLow(Value(ws[..i]), Value(ws[i..]), p);
  }

  /**
   * Appending: when no bit at or above `c` is set in `v` and `f` has `n` bits,
   * the bits of `f` joined above `v` at `c` are those of `v` below `c`, those
   * of `f` from `c` to `c + n`, and none above.
   */
  lemma AppendPlacesBits(v: nat, f: nat, c: nat, n: nat, p: nat)
    requires v < Pow2(c) && f < Pow2(n)
    ensures BitOf(Join(v, f, c), p) == if p < c then BitOf(v, p) else p < c + n && BitOf(f, p - c)
  {
    if p < c {
      AppendKeepsLow(v, f, c, p);
    } else {
      AppendPlacesHigh(v, f, c, n, p);
    }
  }

  /** Below `c`, the bits of a join are those of its low part. */
  lemma AppendKeepsLow(v: nat, f: nat, c: nat, p: nat)
    requires p < c
    ensures BitOf(Join(v, f, c), p) == BitOf(v, p)
  {
    // f * 2^c is a multiple of 2^(p + 1)
    Pow2Add(p, c - p);
    assert p + (c - p) == c;
    assert Pow2(c - p) == 2 * Pow2(c - p - 1);
    JoinDef(v, f, c);
    Spread(Join(v, f, c), v, f, Pow2(c), Pow2(p), Pow2(c - p), Pow2(c - p - 1));
    DivAdd(Join(v, f, c), v, Pow2(p), 2 * (f * Pow2(c - p - 1)));
    DropDef(Join(v, f, c), p);
    DropDef(v, p);
    DivAdd(Drop(Join(v, f, c), p), Drop(v, p), 2, f * Pow2(c - p - 1));
  }

  /** At and above `c`, the bits of a join are those of its high part. */
  lemma AppendPlacesHigh(v: nat, f: nat, c: nat, n: nat, p: nat)
    requires v < Pow2(c) && f < Pow2(n) && c <= p
    ensures BitOf(Join(v, f, c), p) == (p < c + n && BitOf(f, p - c))
  {
    GlueDrop(v, f, c);
    DropDrop(Join(v, f, c), c, p - c);
    assert c + (p - c) == p;
    if p >= c + n {
      Pow2Mono(n, p - c);
      DropSmall(f, p - c);
    }
  }

  /** The arithmetic of `AppendPlacesBits`: `f * 2^c` is `2^p` times an even number. */
  lemma Spread(j: int, v: int, f: int, pc: int, pp: int, pr: int, pr1: int)
    requires j == v + pc * f && pc == pp * pr && pr == 2 * pr1
    ensures j == v + pp * (2 * (f * pr1))
  {
    MulCongr(pp, pr, pc, f);
    MulAssoc(2, f, pr1);
  }

  /** Bit `j` of `Field(x, s, n)` is bit `s + j` of `x` while `j < n`. */
  lemma FieldBit(x: nat, s: nat, n: nat, j: nat)
    ensures BitOf(Field(x, s, n), j) == (j < n && BitOf(x, s + j))
  {
    DropDrop(x, s, j);
    if j < n {
      LowSplit(Drop(x, s), j, n - j);
      assert j + (n - j) == n;
      GlueDrop(Low(Drop(x, s), j), Field(Drop(x, s), j, n - j), j);
      LowParity(Drop(Drop(x, s), j), n - j);
    } else {
      Pow2Mono(n, j);
      DropSmall(Field(x, s, n), j);
    }
  }

  // ---------------------------------------------------------------------------
  // Facts used by the writers and the reader
  // ---------------------------------------------------------------------------

  /** Adding a field above the occupied bits of a word stays inside the word. */
  lemma LowStore(w: u32, f: nat, occupied: nat, n: nat)
    requires w < Pow2(occupied) && f < Pow2(n) && occupied + n <= 32
    ensures w + f * Pow2(occupied) < WORD
  {
    MulBelow(f, Pow2(n), Pow2(occupied));
    Pow2Add(n, occupied);
    LowMaskFits(occupied + n);
  }

  /** A field shifted to bit `o` of a word at place `pi` lands at place `pb = pi * po`. */
  lemma Place(x: int, f: int, po: int, pi: int, pb: int)
    requires x == f * po && pb == pi * po
    ensures x * pi == pb * f
  {
    MulAssoc(f, po, pi);
  }

  /** Joining `n` bits below `2^n` at fill count `c` keeps the value below `2^(c + n)`. */
  lemma AppendBound(v: nat, f: nat, c: nat, n: nat)
    requires v < Pow2(c) && f < Pow2(n)
    ensures Join(v, f, c) < Pow2(c + n)
  {
    Pow2Add(c, n);
    JoinDef(v, f, c);
    LowBound(v, Pow2(c), f, Pow2(n), Pow2(c + n), Join(v, f, c));
  }

  /**
   * One more chunk of a multi-word write: the chunk is the next `w` bits of
   * the source words, so the appended bits are still a prefix of the source.
   */
  /**
   * How the word-by-word write ends, on the counts alone: a write refused
   * because the buffer is full, a write cut short by the end of the buffer,
   * or the last bits written. `t` and `r` are the bits written and still to
   * write before the last `writeValue`, `a` the buffer's count then.
   */
  lemma WordsExit(lenBits: nat, a0: nat, reading: bool, t: nat, r: nat, a: nat,
                  bitsToWrite: nat, status: PalStatus, written: nat)
    requires a == a0 + t && a <= SIZE_BITS && r + t == lenBits && (t > 0 ==> 0 < r && !reading)
    requires bitsToWrite == (if r > INT32_BITS then INT32_BITS else r)
    requires status == Admit(a, reading)
    requires status == PalSuccess ==> written == Min(bitsToWrite, SIZE_BITS - a)
    requires status != PalSuccess ==> written == 0
    requires !(status == PalSuccess && bitsToWrite == written && r - bitsToWrite > 0)
    ensures t + written > 0 ==>
              t + written == Min(lenBits, SIZE_BITS - a0) && Admit(a0, reading) == PalSuccess
    ensures t + written == 0 ==>
              t == 0 && status == Admit(a0, reading) && (status == PalSuccess ==> lenBits == 0)
  {
  }

  lemma AppendChunk(src: seq<u32>, idx: nat, w: nat, a0: nat, c0: nat, t: nat, t': nat, c: nat, a: nat, c': nat)
    requires idx < |src| && w <= 32 && t == 32 * idx && a == a0 + t && t' == t + w
    requires c == Join(c0, Low(Value(src), t), a0) && c' == Join(c, Field(src[idx], 0, w), a)
    ensures c' == Join(c0, Low(Value(src), t'), a0)
  {
    JoinAssoc(c0, Low(Value(src), t), Field(src[idx], 0, w), a0, t, a);
    ValuePrefixBits(src, idx, w, t, t');
  }

  /**
   * The part of a word that a `memcpy` of `b / 8` bytes leaves behind: the
   * low `b` bits of `w` under the high bits of `d` (words are little-endian).
   */
  function Splice(w: u32, d: u32, b: nat): (r: u32)
    requires b <= 32
    ensures Low(r, b) == Low(w, b)
    ensures Drop(r, b) == Drop(d, b)
  {
    SpliceFits(w, d, b);
    Glue(Low(w, b), Drop(d, b), b);
    Join(Low(w, b), Drop(d, b), b)
  }

  lemma SpliceFits(w: u32, d: u32, b: nat)
    requires b <= 32
    ensures Join(Low(w, b), Drop(d, b), b) < WORD
  {
    Pow2Word();
    Pow2Add(b, 32 - b);
    DropDef(d, b);
    JoinDef(Low(w, b), Drop(d, b), b);
    Digits(Low(w, b), d, Pow2(b), Pow2(32 - b), WORD);
  }

  /** Two digits in base `pb`, the high one below `pr`, stay below `pb * pr`. */
  lemma Digits(m: int, d: int, pb: int, pr: int, word: int)
    requires 0 <= m < pb && 0 <= d < word && pb * pr == word
    ensures m + pb * (d / pb) < word
  {
    DivMod(d, pb);
    if d / pb >= pr {
      MulLe(pb, pr, d / pb);
    }
    MulLe(pb, d / pb, pr - 1);
    MulAdd(pb, pr, -1);
  }

  /**
   * Copying the first `r = 32 * q + b` bits of `src` over `dst`, as whole
   * words and then the low `b` bits of one more word: the result reads as
   * those bits of `src` under the remaining bits of `dst`.
   */
  lemma CopyValue(src: seq<u32>, dst: seq<u32>, res: seq<u32>, q: nat, b: nat, p: nat, r: nat)
    requires |src| == |dst| == |res| && b < 32 && (b > 0 ==> q < |src|) && q <= |src|
    requires p == 32 * q && r == p + b
    requires res[..q] == src[..q]
    requires b == 0 ==> res[q..] == dst[q..]
    requires b > 0 ==> res[q] == Splice(src[q], dst[q], b) && res[q + 1..] == dst[q + 1..]
    ensures Value(res) == Join(Low(Value(src), r), Drop(Value(dst), r), r)
  {
    if b == 0 {
      CopyWords(src, dst, res, q, r);
    } else {
      CopyPartial(src, dst, res, q, b, p, r);
    }
  }

  /** `CopyValue` when only whole words are copied. */
  lemma CopyWords(src: seq<u32>, dst: seq<u32>, res: seq<u32>, q: nat, p: nat)
    requires |src| == |dst| == |res| && q <= |src| && p == 32 * q
    requires res[..q] == src[..q] && res[q..] == dst[q..]
    ensures Value(res) == Join(Low(Value(src), p), Drop(Value(dst), p), p)
  {
    ValueSplit(res, q, p);
    ValueSplit(src, q, p);
    ValueSplit(dst, q, p);
    ValueBound(src[..q]);
    ValueBound(dst[..q]);
    GlueLow(Value(src[..q]), Value(src[q..]), p);
    GlueDrop(Value(dst[..q]), Value(dst[q..]), p);
  }

  /** `CopyValue` when the low `b > 0` bits of word `q` are copied too. */
  lemma CopyPartial(src: seq<u32>, dst: seq<u32>, res: seq<u32>, q: nat, b: nat, p: nat, r: nat)
    requires |src| == |dst| == |res| && 0 < b < 32 && q < |src| && p == 32 * q && r == p + b
    requires res[..q] == src[..q] && res[q] == Splice(src[q], dst[q], b) && res[q + 1..] == dst[q + 1..]
    ensures Value(res) == Join(Low(Value(src), r), Drop(Value(dst), r), r)
  {
    ValueAround(res, q, b, p, r);
    ValueAround(src, q, b, p, r);
    ValueAround(dst, q, b, p, r);
    GlueLow(Join(Value(src[..q]), Low(src[q], b), p), Join(Drop(src[q], b), Value(src[q + 1..]), 32 - b), r);
    GlueDrop(Join(Value(dst[..q]), Low(dst[q], b), p), Join(Drop(dst[q], b), Value(dst[q + 1..]), 32 - b), r);
  }

  /**
   * The outcome of a write whose arguments are valid: refused when the
   * buffer is full, discarded while a read is in progress, accepted otherwise.
   */
  function Admit(actual: nat, reading: bool): (status: PalStatus)
    ensures status == PalSuccess <==> actual != SIZE_BITS && !reading
    ensures status == NoiseBufferFull <==> actual == SIZE_BITS
  {
    if actual == SIZE_BITS then NoiseBufferFull else if reading then NoiseBufferIsReading else PalSuccess
  }

  // ---------------------------------------------------------------------------
  // palNoise_t
  // ---------------------------------------------------------------------------

  class NoiseBuffer {
    /** `buffer[PAL_NOISE_BUFFER_LEN]` */
    const buffer: array<u32>
    /** Bits reserved by writers. */
    var bitCountAllocated: nat
    /** Bits written. */
    var bitCountActual: nat
    /** Writers inside `pal_plat_noiseWriteValue`. */
    var numWriters: u32
    /** A read is in progress; writes are refused. */
    var isReading: bool

    /**
     * The fill count never passes the capacity, a reservation only runs ahead
     * of it when the buffer is full, and no bit at or above the fill count is
     * set.
     */
    ghost predicate Valid()
      reads this, buffer
    {
      && buffer.Length == BUFFER_LEN
      && bitCountActual <= SIZE_BITS
      && (bitCountActual < SIZE_BITS ==> bitCountAllocated == bitCountActual)
      && bitCountAllocated < SIZE_BITS + INT32_BITS
      && Value(buffer[..]) < Pow2(bitCountActual)
    }

    /** The collected bits, as one number. */
    ghost function Contents(): nat
      reads buffer
    {
      Value(buffer[..])
    }

    /** `g_noise` as a zero-initialised global. */
    constructor ()
      ensures Valid() && fresh(buffer)
      ensures Contents() == 0 && bitCountActual == 0 && bitCountAllocated == 0
      ensures numWriters == 0 && !isReading
    {
      buffer := new u32[BUFFER_LEN](_ => 0);
      bitCountAllocated := 0;
      bitCountActual := 0;
      numWriters := 0;
      isReading := false;
      new;
      ValueZero(buffer[..]);
    }

    /**
     * The end of a read: the buffer zeroed (`memset`), both counters reset
     * and read mode left.
     */
    method Clear()
      requires buffer.Length == BUFFER_LEN
      modifies this, buffer
      ensures Valid()
      ensures Contents() == 0 && bitCountActual == 0 && bitCountAllocated == 0
      ensures numWriters == old(numWriters) && !isReading
    {
      forall k | 0 <= k < buffer.Length {
        buffer[k] := 0;
      }
      bitCountActual, bitCountAllocated := 0, 0;
      isReading := false;
      ValueZero(buffer[..]);
    }

    /** The reset in `pal_plat_DRBGInit`: the buffer zeroed, counters and flag cleared. */
    method Reset()
      requires buffer.Length == BUFFER_LEN
      modifies this, buffer
      ensures Valid()
      ensures Contents() == 0 && bitCountActual == 0 && bitCountAllocated == 0
      ensures numWriters == 0 && !isReading
    {
      Clear();
      numWriters := 0;
    }

    /** `pal_osAtomicIncrement(&g_noise.buffer[index], value)`: a 32-bit add that wraps. */
    method AtomicAdd(index: nat, value: u32)
      requires index < buffer.Length
      modifies buffer
      ensures buffer[..] == old(buffer[..])[index := AddWrap(old(buffer[index]), value)]
      ensures old(buffer[index]) + value < WORD ==>
                Value(buffer[..]) == old(Value(buffer[..])) + value * Pow2(32 * index)
    {
      ghost var ws := buffer[..];
      buffer[index] := AddWrap(buffer[index], value);
      if ws[index] + value < WORD {
        assert buffer[..] == ws[index := ws[index] + value];
        ValueAdd(ws, index, value);
      }
    }

    /**
     * One store of `pal_plat_noiseWriteValue`: bits `[startBit, startBit + n)`
     * of `data` are masked out, moved to bit `occupied` and added to word
     * `index`, whose bits from `occupied` on are clear.
     */
    method StoreField(index: nat, occupied: nat, ghost place: nat, data: u32, startBit: nat, n: nat)
      requires index < buffer.Length && startBit + n <= 32 && occupied + n <= 32 && place == 32 * index + occupied
      requires buffer[index] < Pow2(occupied)
      modifies buffer
      ensures buffer[..] == old(buffer[..])[index := buffer[index]]
      ensures Value(buffer[..]) == Join(old(Value(buffer[..])), Field(data, startBit, n), place)
    {
      Extract(data, n, startBit, occupied);
      var mask := Shl(Pow2(n) - 1, startBit);
      var value := Align(And(data, mask), startBit, occupied);
      LowStore(buffer[index], Field(data, startBit, n), occupied, n);
      Pow2Sum(32 * index, occupied, place);
      Place(value, Field(data, startBit, n), Pow2(occupied), Pow2(32 * index), Pow2(place));
      JoinDef(Value(buffer[..]), Field(data, startBit, n), place);
      AtomicAdd(index, value);
    }

    /**
     * The placement part of `pal_plat_noiseWriteValue`: bits
     * `[startBit, startBit + len)` of `data` go to flat positions from `base`
     * on, split over two words when the word at `base` lacks room.
     */
    method Deposit(data: u32, startBit: nat, len: nat, base: nat) returns (written: nat)
      requires buffer.Length == BUFFER_LEN
      requires startBit < 32 && startBit + len <= 32 && base < SIZE_BITS && base + len <= SIZE_BITS
      requires Value(buffer[..]) < Pow2(base)
      modifies buffer
      ensures written == len
      ensures Value(buffer[..]) == Join(old(Value(buffer[..])), Field(data, startBit, len), base)
    {
      var currentIndex := base / INT32_BITS;
      var occupied := base % INT32_BITS;
      var available := INT32_BITS - occupied;
      ValueBelow(buffer[..], currentIndex, occupied, base);
      if len > available {
        written := DepositSplit(data, startBit, len, base, currentIndex, occupied, available);
      } else {
        // a 64-bit mask in the source, so that all 32 bits can be selected
        StoreField(currentIndex, occupied, base, data, startBit, len);
        written := len;
      }
    }

    /**
     * The split case of the placement: the low `available` bits of the field
     * fill word `currentIndex` from bit `occupied` on, the rest go to bit 0
     * of the next word.
     */
    method DepositSplit(data: u32, startBit: nat, len: nat, base: nat, currentIndex: nat, occupied: nat, available: nat)
      returns (written: nat)
      requires buffer.Length == BUFFER_LEN
      requires startBit < 32 && startBit + len <= 32 && base + len <= SIZE_BITS
      requires base == 32 * currentIndex + occupied && available == 32 - occupied && available < len
      requires Value(buffer[..]) < Pow2(base) && buffer[currentIndex] < Pow2(occupied)
      modifies buffer
      ensures written == len
      ensures Value(buffer[..]) == Join(old(Value(buffer[..])), Field(data, startBit, len), base)
    {
      Pow2Mono(base, base + available);
      ValueBelow(buffer[..], currentIndex + 1, 0, base + available);
      StoreField(currentIndex, occupied, base, data, startBit, available);
      written := available;
      var rest := len - available;
      // the second part goes to bit 0 of the next word: `value >> startBit` in the source
      StoreField(currentIndex + 1, 0, base + available, data, startBit + available, rest);
      written := written + rest;
      JoinAssoc(old(Value(buffer[..])), Field(data, startBit, available), Field(data, startBit + available, rest), base, available, base + available);
      FieldSplit(data, startBit, available, rest, startBit + available, len);
    }

    /**
     * `pal_plat_noiseWriteValue(&data, startBit, lenBits, &bitsWritten)`:
     * appends bits `[startBit, startBit + lenBits)` of `data` at the fill
     * count, truncated to the room left.
     */
    method WriteValue(data: u32, startBit: nat, lenBits: nat) returns (status: PalStatus, bitsWritten: nat)
      requires Valid() && startBit < 256 && lenBits < 256
      modifies this, buffer
      ensures Valid()
      ensures status == if 32 <= startBit || 32 < startBit + lenBits then InvalidArgument
                        else Admit(old(bitCountActual), isReading)
      ensures status == PalSuccess ==>
                && bitsWritten == Min(lenBits, SIZE_BITS - old(bitCountActual))
                && bitCountActual == old(bitCountActual) + bitsWritten
                && Contents() == Join(old(Contents()), Field(data, startBit, bitsWritten), old(bitCountActual))
      ensures status != PalSuccess ==>
                bitsWritten == 0 && buffer[..] == old(buffer[..]) && bitCountActual == old(bitCountActual)
      ensures isReading == old(isReading) && numWriters == old(numWriters)
    {
      if INT32_BITS - 1 < startBit || INT32_BITS < lenBits + startBit {
        return InvalidArgument, 0;
      }
      bitsWritten := 0;
      if SIZE_BITS == bitCountActual {
        return NoiseBufferFull, 0;
      }
      status := PalSuccess;
      IncDec(numWriters);
      numWriters := AddWrap(numWriters, 1);
      if isReading {
        status := NoiseBufferIsReading;
      } else {
        bitCountAllocated := bitCountAllocated + lenBits;
        // below 2^16, so the `uint16_t` cast keeps it
        var incrementedBitCount := bitCountAllocated;
        var len := lenBits;
        if SIZE_BITS < incrementedBitCount {
          // some room is left: with one writer the reservation began at the fill count
          len := len - (incrementedBitCount - SIZE_BITS);
          incrementedBitCount := SIZE_BITS;
        }
        ghost var before := Contents();
        bitsWritten := Deposit(data, startBit, len, incrementedBitCount - len);
        bitCountActual := bitCountActual + bitsWritten;
        AppendBound(before, Field(data, startBit, len), old(bitCountActual), len);
      }
      numWriters := AddWrap(numWriters, -1);
    }

    /**
     * `pal_plat_noiseWriteBuffer(src, lenBits, &bitsWritten)`: writes the
     * first `lenBits` bits of the words `src`, 32 at a time, until a write
     * fails, comes up short or the bits run out. Any bit written makes the
     * call a success.
     */
    method WriteBuffer(src: seq<u32>, lenBits: nat) returns (status: PalStatus, bitsWritten: nat)
      requires Valid() && |src| > 0 && (lenBits <= SIZE_BITS ==> lenBits <= 32 * |src|)
      modifies this, buffer
      ensures Valid()
      ensures status == if SIZE_BITS < lenBits then InvalidArgument else Admit(old(bitCountActual), isReading)
      ensures status == PalSuccess ==>
                && bitsWritten == Min(lenBits, SIZE_BITS - old(bitCountActual))
                && bitCountActual == old(bitCountActual) + bitsWritten
                && Contents() == Join(old(Contents()), Low(Value(src), bitsWritten), old(bitCountActual))
      ensures status != PalSuccess ==>
                bitsWritten == 0 && buffer[..] == old(buffer[..]) && bitCountActual == old(bitCountActual)
      ensures isReading == old(isReading) && numWriters == old(numWriters)
    {
      if SIZE_BITS < lenBits {
        return InvalidArgument, 0;
      }
      status, bitsWritten := WriteWords(src, lenBits);
      if 0 < bitsWritten {
        status := PalSuccess;
      }
    }

    /**
     * The do-while of `pal_plat_noiseWriteBuffer`: one `writeValue` per word
     * of `src`, until one fails, comes up short or the bits run out. `total`
     * is the number of bits written.
     */
    method WriteWords(src: seq<u32>, lenBits: nat) returns (status: PalStatus, total: nat)
      requires Valid() && |src| > 0 && lenBits <= SIZE_BITS && lenBits <= 32 * |src|
      modifies this, buffer
      ensures Valid() && isReading == old(isReading) && numWriters == old(numWriters)
      ensures bitCountActual == old(bitCountActual) + total
      ensures Contents() == Join(old(Contents()), Low(Value(src), total), old(bitCountActual))
      ensures total > 0 ==>
                total == Min(lenBits, SIZE_BITS - old(bitCountActual)) && Admit(old(bitCountActual), isReading) == PalSuccess
      ensures total == 0 ==>
                && status == Admit(old(bitCountActual), isReading)
                && (status == PalSuccess ==> lenBits == 0)
                && (status != PalSuccess ==> buffer[..] == old(buffer[..]))
    {
      var idx := 0;
      total := 0;
      var remaining := lenBits;
      JoinZero(Contents(), bitCountActual);
      // the source's do-while: the exit test is at the bottom
      while true
        invariant Valid() && isReading == old(isReading) && numWriters == old(numWriters)
        invariant bitCountActual == old(bitCountActual) + total
        invariant Contents() == Join(old(Contents()), Low(Value(src), total), old(bitCountActual))
        invariant total == 32 * idx && remaining == lenBits - total && (idx > 0 ==> 0 < remaining)
        invariant total > 0 ==> !isReading
        invariant idx == 0 ==> buffer[..] == old(buffer[..])
        decreases remaining
      {
        var bitsToWrite := if remaining > INT32_BITS then INT32_BITS else remaining;
        ghost var c, a, t, r := Contents(), bitCountActual, total, remaining;
        var written;
        status, written := WriteValue(src[idx], 0, bitsToWrite);
        total := total + written;
        if status == PalSuccess {
          AppendChunk(src, idx, written, old(bitCountActual), old(Contents()), t, total, c, a, Contents());
          assert !isReading;
        } else {
          assert total == t && Contents() == c;
        }
        remaining := remaining - bitsToWrite;
        assert 32 * (idx + 1) == 32 * idx + 32;
        idx := idx + 1;
        if !(status == PalSuccess && bitsToWrite == written && remaining > 0) {
          WordsExit(lenBits, old(bitCountActual), isReading, t, r, a, bitsToWrite, status, written);
          break;
        }
      }
    }

    /**
     * `memcpy(dest, buffer, numBytes)` on little-endian words: whole words,
     * then the low bytes of one more word. The first `8 * numBytes` bits of
     * `dest` become those of the buffer and the rest of `dest` is kept.
     */
    method CopyBytes(dest: array<u32>, numBytes: nat)
      requires Valid() && dest.Length == BUFFER_LEN && dest != buffer && numBytes <= 4 * BUFFER_LEN
      modifies dest
      ensures Value(dest[..]) == Join(Low(Contents(), numBytes * CHAR_BIT), Drop(old(Value(dest[..])), numBytes * CHAR_BIT), numBytes * CHAR_BIT)
    {
      ghost var held, d0 := buffer[..], Value(dest[..]);
      var q := numBytes / 4;
      var b := CHAR_BIT * (numBytes % 4);
      var k := 0;
      while k < q
        invariant 0 <= k <= q <= BUFFER_LEN
        invariant dest[..k] == held[..k] && dest[k..] == old(dest[k..])
      {
        dest[k] := buffer[k];
        k := k + 1;
      }
      if b > 0 {
        dest[q] := Splice(buffer[q], dest[q], b);
      }
      CopyValue(buffer[..], old(dest[..]), dest[..], q, b, 32 * q, numBytes * CHAR_BIT);
    }

    /**
     * `pal_plat_noiseRead(dest, partial, &bitsRead)`: when at least a byte
     * is held (and, unless `partial`, the buffer is full), copies the whole
     * bytes collected into `dest` and empties the buffer.
     */
    method Read(dest: array<u32>, partial: bool) returns (status: PalStatus, bitsRead: nat)
      requires Valid() && dest.Length == BUFFER_LEN && dest != buffer
      modifies this, buffer, dest
      ensures Valid()
      ensures status == NoiseBufferEmpty <==> old(bitCountActual) < CHAR_BIT
      ensures status == NoiseBufferNotFull <==>
                CHAR_BIT <= old(bitCountActual) && !partial && old(bitCountActual) != SIZE_BITS
      ensures status == PalSuccess <==>
                CHAR_BIT <= old(bitCountActual) && (partial || old(bitCountActual) == SIZE_BITS)
      ensures status != PalSuccess ==>
                && bitsRead == 0 && buffer[..] == old(buffer[..]) && dest[..] == old(dest[..])
                && bitCountActual == old(bitCountActual) && bitCountAllocated == old(bitCountAllocated)
                && isReading == old(isReading)
      ensures status == PalSuccess ==>
                && bitsRead == CHAR_BIT * (old(bitCountActual) / CHAR_BIT)
                && Value(dest[..]) == Join(Low(old(Contents()), bitsRead), Drop(old(Value(dest[..])), bitsRead), bitsRead)
                && Contents() == 0 && bitCountActual == 0 && bitCountAllocated == 0 && !isReading
      ensures numWriters == old(numWriters)
    {
      var bitCountActualLocal := bitCountActual;
      bitsRead := 0;
      if CHAR_BIT > bitCountActualLocal || (!partial && SIZE_BITS != bitCountActualLocal) {
        status := if CHAR_BIT > bitCountActualLocal then NoiseBufferEmpty else NoiseBufferNotFull;
        return;
      }
      status := PalSuccess;
      ghost var c0, d0 := Contents(), Value(dest[..]);
      isReading := true;
      var numBytesToRead := bitCountActualLocal / CHAR_BIT;
      CopyBytes(dest, numBytesToRead);
      bitsRead := numBytesToRead * CHAR_BIT;
      ghost var copied := dest[..];
      assert Value(copied) == Join(Low(c0, bitsRead), Drop(d0, bitsRead), bitsRead);
      Clear();
      assert dest[..] == copied;
    }
  }

  // ---------------------------------------------------------------------------
  // DRBG module state
  // ---------------------------------------------------------------------------

  /** `g_palDRBGInitialized` and the noise buffer it guards. */
  class Drbg {
    var initialized: bool
    const noise: NoiseBuffer

    constructor ()
      ensures !initialized && noise.Valid() && fresh(noise) && fresh(noise.buffer)
    {
      initialized := false;
      noise := new NoiseBuffer();
    }

    /**
     * `pal_plat_DRBGInit`: the first call resets the noise buffer; a call on
     * an initialised module changes nothing.
     */
    method Init() returns (status: PalStatus)
      requires noise.buffer.Length == BUFFER_LEN
      modifies this, noise, noise.buffer
      ensures status == PalSuccess && initialized
      ensures old(initialized) ==>
                && noise.buffer[..] == old(noise.buffer[..])
                && noise.bitCountActual == old(noise.bitCountActual)
                && noise.bitCountAllocated == old(noise.bitCountAllocated)
                && noise.numWriters == old(noise.numWriters) && noise.isReading == old(noise.isReading)
      ensures !old(initialized) ==>
                && noise.Valid() && noise.Contents() == 0
                && noise.bitCountActual == 0 && noise.bitCountAllocated == 0
                && noise.numWriters == 0 && !noise.isReading
    {
      status := PalSuccess;
      if initialized {
        return;
      }
      noise.Reset();
      initialized := true;
    }

    /**
     * `pal_plat_DRBGDestroy`: on an initialised module, frees the DRBG
     * context when there is one (`freeStatus` is what the free returns) and
     * clears the flag. The result is NOT_INITIALIZED unless a context was
     * freed, even when the module was initialised.
     */
    method Destroy(hasContext: bool, freeStatus: PalStatus) returns (status: PalStatus)
      modifies this
      ensures !initialized
      ensures !old(initialized) ==> status == NotInitialized
      ensures old(initialized) ==> status == if hasContext then freeStatus else NotInitialized
    {
      status := NotInitialized;
      if !initialized {
        return;
      }
      if hasContext {
        status := freeStatus;
      }
      initialized := false;
    }
  }
}
