/** The Rust string and iterator operations the server relies on, over
    byte sequences: `split`, `replace`, `to_lowercase` + `contains`, slicing
    with `&s[k..]`, `Iterator::position` and `{}` formatting of a `usize`. */
module Text {
  import opened Wrappers

  /** One octet of UTF-8 text, written with Dafny character literals (code
      points below 256), so that `"HTTP/1.1"` is a byte sequence and `|s|` is
      what Rust's `str::len` returns. */
  type byte = c: char | c as int < 256

  type bytes = seq<byte>

  /** A UTF-8 continuation byte (`10xxxxxx`); no character starts at one. */
  predicate IsContinuation(b: byte) {
    0x80 <= b as int < 0xC0
  }

  predicate OccursAt(s: bytes, pat: bytes, i: nat) {
    i + |pat| <= |s| && s[i..i + |pat|] == pat
  }

  /** `str::contains` with a string pattern. */
  predicate Contains(s: bytes, pat: bytes) {
    exists i: nat | i <= |s| :: OccursAt(s, pat, i)
  }

  /** `s.split(sep)` with a non-empty pattern: the pieces between the
      leftmost non-overlapping occurrences of `sep`, scanned left to right. */
  function Split(s: bytes, sep: bytes): (r: seq<bytes>)
    requires |sep| > 0
    ensures |r| >= 1
    decreases |s|
  {
    if |s| < |sep| then [s]
    else if s[..|sep|] == sep then [[]] + Split(s[|sep|..], sep)
    else
      var rest := Split(s[1..], sep);
      [[s[0]] + rest[0]] + rest[1..]
  }

  /** The pieces put back together with `sep` between neighbours. */
  function Join(parts: seq<bytes>, sep: bytes): bytes {
    if |parts| == 0 then []
    else if |parts| == 1 then parts[0]
    else parts[0] + sep + Join(parts[1..], sep)
  }

  /** `s.replace(pat, with)`: every leftmost non-overlapping occurrence of
      `pat` replaced, which is splitting on `pat` and joining with `with`. */
  function Replace(s: bytes, pat: bytes, with: bytes): bytes
    requires |pat| > 0
  {
    Join(Split(s, pat), with)
  }

  lemma JoinPrefix(parts: seq<bytes>, sep: bytes)
    requires |parts| >= 1
    ensures parts[0] <= Join(parts, sep)
  {
  }

  /** Splitting loses nothing: joining the pieces with the separator gives
      back the input. */
  lemma {:induction false} SplitJoin(s: bytes, sep: bytes)
    requires |sep| > 0
    ensures Join(Split(s, sep), sep) == s
    decreases |s|
  {
    if |s| < |sep| {
    } else if s[..|sep|] == sep {
      var rest := Split(s[|sep|..], sep);
      assert Split(s, sep) == [[]] + rest;
      SplitJoin(s[|sep|..], sep);
      assert ([[]] + rest)[1..] == rest;
      assert s == sep + s[|sep|..];
    } else {
      var rest := Split(s[1..], sep);
      assert Split(s, sep) == [[s[0]] + rest[0]] + rest[1..];
      SplitJoin(s[1..], sep);
      JoinExtendFirst(s[0], rest, sep);
      assert s == [s[0]] + s[1..];
    }
  }

  /** Growing the first piece at its front grows the joined text there. */
  lemma JoinExtendFirst(b: byte, parts: seq<bytes>, sep: bytes)
    requires |parts| >= 1
    ensures Join([[b] + parts[0]] + parts[1..], sep) == [b] + Join(parts, sep)
  {
    var ext := [[b] + parts[0]] + parts[1..];
    if |parts| > 1 {
      assert ext[1..] == parts[1..];
    }
  }

  /** No piece contains the separator. */
  lemma {:induction false} SplitPiecesFree(s: bytes, sep: bytes)
    requires |sep| > 0
    ensures forall k | 0 <= k < |Split(s, sep)| :: !Contains(Split(s, sep)[k], sep)
    decreases |s|
  {
    var r := Split(s, sep);
    SplitFirstPiece(s, sep);
    SplitRest(s, sep);
    SplitJoin(s, sep);
    JoinPrefix(r, sep);
    forall i: nat | i <= |r[0]| ensures !OccursAt(r[0], sep, i) {
      if i + |sep| <= |r[0]| {
        assert !OccursAt(s, sep, i);
        assert r[0][i..i + |sep|] == s[i..i + |sep|];
      }
    }
    if |r| > 1 {
      var t := s[|r[0]| + |sep|..];
      SplitPiecesFree(t, sep);
      forall k | 0 <= k < |r| ensures !Contains(r[k], sep) {
        if k > 0 {
          assert r[k] == Split(t, sep)[k - 1];
        }
      }
    }
  }

  /** Where the separator does not occur, `split` yields the input alone. */
  lemma {:induction false} SplitNoSep(s: bytes, sep: bytes)
    requires |sep| > 0
    requires !Contains(s, sep)
    ensures Split(s, sep) == [s]
    decreases |s|
  {
    if |s| >= |sep| {
      assert !OccursAt(s, sep, 0);
      forall i: nat | OccursAt(s[1..], sep, i) ensures false {
        assert s[1..][i..i + |sep|] == s[i + 1..i + 1 + |sep|];
        assert OccursAt(s, sep, i + 1);
      }
      SplitNoSep(s[1..], sep);
      assert s == [s[0]] + s[1..];
    }
  }

  /** `split` scans left to right: no occurrence of the separator starts
      inside the first piece. */
  lemma {:induction false} SplitFirstPiece(s: bytes, sep: bytes)
    requires |sep| > 0
    ensures forall i: nat | i < |Split(s, sep)[0]| :: !OccursAt(s, sep, i)
    decreases |s|
  {
    var r := Split(s, sep);
    if |s| >= |sep| && s[..|sep|] != sep {
      var rest := Split(s[1..], sep);
      assert r == [[s[0]] + rest[0]] + rest[1..];
      SplitFirstPiece(s[1..], sep);
      forall i: nat | i < |r[0]| ensures !OccursAt(s, sep, i) {
        if i > 0 {
          assert !OccursAt(s[1..], sep, i - 1);
          if i + |sep| <= |s| {
            assert s[1..][i - 1..i - 1 + |sep|] == s[i..i + |sep|];
          }
        }
      }
    } else if |s| >= |sep| {
      assert r == [[]] + Split(s[|sep|..], sep);
    }
  }

  /** The first piece is the input's leading bytes. */
  lemma {:induction false} SplitFirstPrefix(s: bytes, sep: bytes)
    requires |sep| > 0
    ensures |Split(s, sep)[0]| <= |s| && Split(s, sep)[0] == s[..|Split(s, sep)[0]|]
    decreases |s|
  {
    if |s| >= |sep| && s[..|sep|] != sep {
      var rest := Split(s[1..], sep);
      assert Split(s, sep)[0] == [s[0]] + rest[0];
      SplitFirstPrefix(s[1..], sep);
      assert rest[0] == s[1..][..|rest[0]|] == s[1..|rest[0]| + 1];
    } else if |s| >= |sep| {
      assert Split(s, sep) == [[]] + Split(s[|sep|..], sep);
    }
  }

  /** Together with `SplitFirstPiece` and `SplitFirstPrefix`, this fixes
      `split` as the leftmost scan: when there are several pieces, an occurrence of the separator
      starts right after the first, and the remaining pieces are the split
      of what follows it; a single piece is the whole input. */
  lemma {:induction false} SplitRest(s: bytes, sep: bytes)
    requires |sep| > 0
    ensures var r := Split(s, sep);
      |r| > 1 ==>
        && |r[0]| + |sep| <= |s|
        && OccursAt(s, sep, |r[0]|)
        && r[1..] == Split(s[|r[0]| + |sep|..], sep)
    ensures |Split(s, sep)| == 1 ==> Split(s, sep)[0] == s
    decreases |s|
  {
    var r := Split(s, sep);
    if |s| < |sep| {
    } else if s[..|sep|] == sep {
      assert r == [[]] + Split(s[|sep|..], sep);
      assert r[1..] == Split(s[|sep|..], sep);
      assert OccursAt(s, sep, 0);
    } else {
      var rest := Split(s[1..], sep);
      assert r == [[s[0]] + rest[0]] + rest[1..];
      SplitRest(s[1..], sep);
      if |r| > 1 {
        var k := |rest[0]|;
        assert |rest| > 1 && |r[0]| == k + 1;
        assert r[1..] == rest[1..];
        assert OccursAt(s[1..], sep, k);
        assert s[1..][k..k + |sep|] == s[k + 1..k + 1 + |sep|];
        assert s[1..][k + |sep|..] == s[k + 1 + |sep|..];
      } else {
        assert s == [s[0]] + s[1..];
      }
    }
  }

  /** The input splits into one piece exactly when the separator does not
      occur in it. */
  lemma SplitSingle(s: bytes, sep: bytes)
    requires |sep| > 0
    ensures |Split(s, sep)| == 1 <==> !Contains(s, sep)
  {
    if !Contains(s, sep) {
      SplitNoSep(s, sep);
    } else if |Split(s, sep)| == 1 {
      SplitJoin(s, sep);
      SplitPiecesFree(s, sep);
    }
  }

  /** A first piece free of the separator's first byte is split off at the
      separator that follows it. */
  lemma {:induction false} SplitAfter(a: bytes, sep: bytes, b: bytes)
    requires |sep| > 0
    requires sep[0] !in a
    ensures Split(a + sep + b, sep) == [a] + Split(b, sep)
    decreases |a|
  {
    var s := a + sep + b;
    if a == [] {
      assert s == sep + b;
      assert s[..|sep|] == sep;
      assert s[|sep|..] == b;
    } else {
      assert s[0] == a[0];
      assert s[..|sep|] != sep by { assert s[..|sep|][0] == a[0]; }
      assert s[1..] == a[1..] + sep + b;
      SplitAfter(a[1..], sep, b);
      assert [s[0]] + a[1..] == a;
    }
  }

  /** `b.to_ascii_lowercase()`; see `Lower`. */
  function LowerByte(b: byte): byte {
    if 'A' <= b <= 'Z' then (b as int + 32) as char else b
  }

  /** `str::to_lowercase` as far as a search for an ASCII needle can tell:
      ASCII letters are folded and every other byte is kept. */
  function Lower(s: bytes): bytes {
    seq(|s|, i requires 0 <= i < |s| => LowerByte(s[i]))
  }

  /** `&s[k..]` on a `str`: panics when `k` is past the end or falls inside
      a UTF-8 sequence. */
  function SliceFrom(s: bytes, k: nat): (r: Result<bytes, Panic>)
    ensures r.Ok? <==> k <= |s| && (k == |s| || !IsContinuation(s[k]))
    ensures r.Ok? ==> s == s[..k] + r.value
    ensures k > |s| ==> r == Err(SliceOutOfRange)
  {
    if k > |s| then Err(SliceOutOfRange)
    else if k < |s| && IsContinuation(s[k]) then Err(NotCharBoundary)
    else Ok(s[k..])
  }

  /** `Iterator::position`: the least index whose element satisfies `p`. */
  function FirstIndex<T>(s: seq<T>, p: T -> bool): (r: Option<nat>)
    ensures r.Some? ==> r.value < |s| && p(s[r.value])
    ensures r.Some? ==> forall j | 0 <= j < r.value :: !p(s[j])
    ensures r.None? ==> forall j | 0 <= j < |s| :: !p(s[j])
  {
    if s == [] then None
    else if p(s[0]) then Some(0)
    else match FirstIndex(s[1..], p)
      case Some(k) => Some(k + 1)
      case None => None
  }

  predicate IsDigit(b: byte) {
    '0' <= b <= '9'
  }

  function DigitByte(d: nat): byte
    requires d < 10
  {
    ('0' as int + d) as char
  }

  /** `format!("{}", n)` for an unsigned integer: decimal digits, no sign,
      and no leading zero except in `0` itself. */
  function Decimal(n: nat): (r: bytes)
    ensures |r| >= 1
    ensures forall i | 0 <= i < |r| :: IsDigit(r[i])
    ensures r[0] == '0' ==> n == 0 && r == "0"
  {
    if n < 10 then [DigitByte(n)] else Decimal(n / 10) + [DigitByte(n % 10)]
  }

  function DigitsValue(s: bytes): nat
    requires forall i | 0 <= i < |s| :: IsDigit(s[i])
  {
    if s == [] then 0
    else
      assert IsDigit(s[|s| - 1]);
      10 * DigitsValue(s[..|s| - 1]) + (s[|s| - 1] as int - '0' as int)
  }

  /** How a client reads a decimal header value: a non-empty run of digits. */
  function ParseDecimal(s: bytes): Option<nat> {
    if s != [] && forall i | 0 <= i < |s| :: IsDigit(s[i]) then Some(DigitsValue(s)) else None
  }

  /** Reading back a formatted number gives the number. */
  lemma {:induction false} DecimalRoundTrip(n: nat)
    ensures ParseDecimal(Decimal(n)) == Some(n)
  {
    if n >= 10 {
      DecimalRoundTrip(n / 10);
      var d := Decimal(n);
      assert d[..|d| - 1] == Decimal(n / 10);
      assert d[|d| - 1] == DigitByte(n % 10);
      assert DigitsValue(d) == 10 * (n / 10) + n % 10;
    }
  }
}
