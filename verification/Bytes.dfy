/** Byte strings and the operations of Go's `bytes`, `strings`, `strconv` and `encoding/binary` packages that
    the two message codecs call. */
module Bytes {

  import opened Wrappers

  /** A byte is a character below 256, so that the wire constants can be written as string literals. */
  type byte = c: char | c as int < 256 witness 'a'
  type bytes = seq<byte>

  const CRLF: bytes := "\r\n"

  // ----- searching -----

  function Min(a: nat, b: nat): nat {
    if a < b then a else b
  }

  predicate OccursAt(s: bytes, p: bytes, i: int) {
    0 <= i && i + |p| <= |s| && s[i..i + |p|] == p
  }

  ghost predicate Occurs(s: bytes, p: bytes) {
    exists i :: OccursAt(s, p, i)
  }

  predicate HasPrefix(s: bytes, p: bytes) {
    |p| <= |s| && s[..|p|] == p
  }

  predicate HasSuffix(s: bytes, p: bytes) {
    |p| <= |s| && s[|s| - |p|..] == p
  }

  function IndexFrom(s: bytes, p: bytes, i: nat): (r: int)
    requires i <= |s|
    ensures r == -1 || (i <= r && OccursAt(s, p, r))
    ensures forall j :: i <= j && OccursAt(s, p, j) ==> 0 <= r <= j
    decreases |s| - i
  {
    if OccursAt(s, p, i) then i else if i == |s| then -1 else IndexFrom(s, p, i + 1)
  }

  /** The position of the first occurrence of `p` in `s`, or -1. */
  function Index(s: bytes, p: bytes): (r: int)
    ensures r == -1 || OccursAt(s, p, r)
    ensures forall j :: OccursAt(s, p, j) ==> 0 <= r <= j
  {
    IndexFrom(s, p, 0)
  }

  /** The two parts of a slice. */
  lemma SliceParts(s: bytes, q: nat, m: nat, n: nat)
    requires q + m + n <= |s|
    ensures s[q..q + m + n][..m] == s[q..q + m]
    ensures s[q..q + m + n][m..] == s[q + m..q + m + n]
  {
  }

  /** A slice on the right of a joint. */
  lemma SliceOfTail(a: bytes, b: bytes, i: nat, n: nat)
    requires i + n <= |b|
    ensures (a + b)[|a| + i..|a| + i + n] == b[i..i + n]
  {
  }

  /** A slice on the left of a joint. */
  lemma SliceOfHead(a: bytes, b: bytes, i: nat, n: nat)
    requires i + n <= |a|
    ensures (a + b)[i..i + n] == a[i..i + n]
  {
  }

  /** A separator whose last byte occurs only at its end has no border: no two occurrences overlap. */
  predicate LastUnique(p: bytes) {
    |p| > 0 && forall i :: 0 <= i < |p| - 1 ==> p[i] != p[|p| - 1]
  }

  lemma OccursBefore(a: bytes, rest: bytes, p: bytes, q: int)
    requires OccursAt(a + rest, p, q)
    ensures q + |p| <= |a| ==> OccursAt(a, p, q)
  {
    if q + |p| <= |a| {
      SliceOfHead(a, rest, q, |p|);
    }
  }

  /** After a prefix free of `sep`, the occurrences are the separator itself and those of the rest. */
  lemma OccurrenceAfter(a: bytes, sep: bytes, rest: bytes, q: int)
    requires LastUnique(sep) && !Occurs(a, sep)
    requires OccursAt(a + sep + rest, sep, q)
    ensures q == |a| || (|a| + |sep| <= q && OccursAt(rest, sep, q - |a| - |sep|))
  {
    var s := a + sep + rest;
    var n := |sep|;
    OccursBefore(a, sep + rest, sep, q);
    forall j | q <= j < q + n ensures s[j] == sep[j - q] {
      assert s[j] == s[q..q + n][j - q];
    }
    assert forall j :: |a| <= j < |a| + n ==> s[j] == sep[j - |a|];
    assert s[q + n - 1] == sep[n - 1] == s[|a| + n - 1];
    if q >= |a| + n {
      var r := q - |a| - n;
      SliceOfTail(a + sep, rest, r, n);
    }
  }

  lemma IndexAfterFree(a: bytes, sep: bytes, rest: bytes)
    requires LastUnique(sep) && !Occurs(a, sep)
    ensures Index(a + sep + rest, sep) == |a|
  {
    var s := a + sep + rest;
    assert OccursAt(s, sep, |a|);
    OccurrenceAfter(a, sep, rest, Index(s, sep));
  }

  // ----- splitting -----

  function Join(parts: seq<bytes>, sep: bytes): bytes {
    if |parts| == 0 then []
    else if |parts| == 1 then parts[0]
    else parts[0] + sep + Join(parts[1..], sep)
  }

  /** Go's bytes.Split: the pieces between the non-overlapping occurrences of `sep`, left to right. */
  function Split(s: bytes, sep: bytes): (parts: seq<bytes>)
    requires |sep| > 0
    ensures |parts| > 0
    ensures Join(parts, sep) == s
    ensures forall k :: 0 <= k < |parts| ==> !Occurs(parts[k], sep)
    decreases |s|
  {
    var i := Index(s, sep);
    if i < 0 then [s]
    else
      var rest := Split(s[i + |sep|..], sep);
      FreeBeforeFirst(s, sep);
      assert s == s[..i] + sep + s[i + |sep|..];
      assert ([s[..i]] + rest)[1..] == rest;
      [s[..i]] + rest
  }

  lemma FreeBeforeFirst(s: bytes, sep: bytes)
    requires |sep| > 0 && Index(s, sep) >= 0
    ensures !Occurs(s[..Index(s, sep)], sep)
  {
    var i := Index(s, sep);
    forall j ensures !OccursAt(s[..i], sep, j) {
      if 0 <= j && j + |sep| <= i {
        assert s[..i][j..j + |sep|] == s[j..j + |sep|];
        assert !OccursAt(s, sep, j);
      }
    }
  }

  lemma SplitAfterFree(a: bytes, sep: bytes, rest: bytes)
    requires LastUnique(sep) && !Occurs(a, sep)
    ensures Split(a + sep + rest, sep) == [a] + Split(rest, sep)
  {
    var s := a + sep + rest;
    IndexAfterFree(a, sep, rest);
    assert s[..|a|] == a && s[|a| + |sep|..] == rest;
  }

  /** Splitting undoes joining, when the pieces do not contain the separator. */
  lemma {:induction false} SplitJoin(parts: seq<bytes>, sep: bytes)
    requires |parts| > 0 && LastUnique(sep)
    requires forall k :: 0 <= k < |parts| ==> !Occurs(parts[k], sep)
    ensures Split(Join(parts, sep), sep) == parts
  {
    var s := Join(parts, sep);
    if |parts| == 1 {
      assert Index(s, sep) == -1;
      assert parts == [s];
    } else {
      SplitAfterFree(parts[0], sep, Join(parts[1..], sep));
      SplitJoin(parts[1..], sep);
    }
  }

  function Flatten(parts: seq<bytes>): bytes {
    if |parts| == 0 then [] else parts[0] + Flatten(parts[1..])
  }

  lemma {:induction false} FlattenAppend(a: seq<bytes>, b: seq<bytes>)
    ensures Flatten(a + b) == Flatten(a) + Flatten(b)
  {
    if |a| == 0 {
      assert a + b == b;
    } else {
      assert (a + b)[1..] == a[1..] + b;
      FlattenAppend(a[1..], b);
    }
  }

  /** Go's bytes.ReplaceAll with an empty replacement. */
  function RemoveAll(s: bytes, old_: bytes): bytes
    requires |old_| > 0
  {
    Flatten(Split(s, old_))
  }

  /** Every occurrence is removed, and nothing else is. */
  lemma RemoveAllMeans(parts: seq<bytes>, sep: bytes)
    requires |parts| > 0 && LastUnique(sep)
    requires forall k :: 0 <= k < |parts| ==> !Occurs(parts[k], sep)
    ensures RemoveAll(Join(parts, sep), sep) == Flatten(parts)
  {
    SplitJoin(parts, sep);
  }

  /** Removing a separator that occurs makes the text shorter; otherwise nothing changes. */
  lemma {:induction false} RemoveAllLength(s: bytes, sep: bytes)
    requires |sep| > 0
    ensures |RemoveAll(s, sep)| <= |s|
    ensures Occurs(s, sep) ==> |RemoveAll(s, sep)| <= |s| - |sep|
    ensures !Occurs(s, sep) ==> RemoveAll(s, sep) == s
    decreases |s|
  {
    var i := Index(s, sep);
    if i < 0 {
      assert Split(s, sep) == [s];
      assert Flatten([s]) == s + Flatten([s][1..]) == s;
    } else {
      assert Occurs(s, sep);
      var rest := s[i + |sep|..];
      var parts := Split(s, sep);
      assert parts[1..] == Split(rest, sep);
      RemoveAllLength(rest, sep);
    }
  }

  // ----- numbers -----

  predicate IsDigit(c: byte) { '0' <= c <= '9' }

  predicate AllDigits(s: bytes) { forall i :: 0 <= i < |s| ==> IsDigit(s[i]) }

  function DigitValue(c: byte): nat
    requires IsDigit(c)
  {
    c as int - '0' as int
  }

  function Digit(d: nat): (c: byte)
    requires d < 10
    ensures IsDigit(c) && DigitValue(c) == d
  {
    ('0' as int + d) as char
  }

  /** The value a digit string denotes, most significant digit first. */
  function Value(s: bytes): nat
    requires AllDigits(s)
  {
    if |s| == 0 then 0 else 10 * Value(s[..|s| - 1]) + DigitValue(s[|s| - 1])
  }

  /** The `%d` of a non-negative integer. */
  function Decimal(n: nat): (s: bytes)
    ensures |s| > 0 && AllDigits(s)
  {
    if n < 10 then [Digit(n)] else Decimal(n / 10) + [Digit(n % 10)]
  }

  lemma {:induction false} DecimalValue(n: nat)
    ensures Value(Decimal(n)) == n
  {
    if n < 10 {
      assert Value([]) == 0;
      assert Decimal(n)[..0] == [];
    } else {
      DecimalValue(n / 10);
      var s := Decimal(n);
      assert s[..|s| - 1] == Decimal(n / 10);
    }
  }

  function Pow10(k: nat): nat {
    if k == 0 then 1 else 10 * Pow10(k - 1)
  }

  lemma {:induction false} DecimalLength(n: nat, k: nat)
    requires 1 <= k && n < Pow10(k)
    ensures |Decimal(n)| <= k
  {
    if n >= 10 {
      DecimalLength(n / 10, k - 1);
    }
  }

  const TWO63: int := 0x8000_0000_0000_0000

  /** strconv.ParseUint(s, 10, 63). */
  function ParseUint63(s: bytes): (r: Option<nat>)
    ensures r.Some? <==> |s| > 0 && AllDigits(s) && Value(s) < TWO63
    ensures r.Some? ==> r.value == Value(s)
  {
    if |s| > 0 && AllDigits(s) && Value(s) < TWO63 then Some(Value(s)) else None
  }

  /** strconv.Atoi on a 64-bit machine: the value it returns, and whether the error is nil. A syntax error gives 0, a
      range error the nearest representable integer. */
  function Atoi(s: bytes): (r: (int, bool))
    ensures -TWO63 <= r.0 < TWO63
  {
    var negative := |s| > 0 && s[0] == '-';
    var digits := if |s| > 0 && (s[0] == '-' || s[0] == '+') then s[1..] else s;
    if |digits| == 0 || !AllDigits(digits) then (0, false)
    else
      var v: int := Value(digits);
      if negative then (if v <= TWO63 then (-v, true) else (-TWO63, false))
      else if v < TWO63 then (v, true) else (TWO63 - 1, false)
  }

  lemma AtoiDecimal(n: nat)
    requires n < TWO63
    ensures Atoi(Decimal(n)) == (n, true)
  {
    DecimalValue(n);
    assert IsDigit(Decimal(n)[0]);
  }

  /** A number as strconv.Atoi reads it: an optional sign, and at least one digit. */
  ghost predicate Spells(s: bytes, sign: bytes, digits: bytes) {
    s == sign + digits && sign in {[], ['+'], ['-']} && |digits| > 0 && AllDigits(digits)
  }

  /** The nearest 64-bit integer. */
  function Clamp(v: int): int {
    if v < -0x8000_0000_0000_0000 then -0x8000_0000_0000_0000
    else if v > 0x7FFF_FFFF_FFFF_FFFF then 0x7FFF_FFFF_FFFF_FFFF
    else v
  }

  function Signed(sign: bytes, n: int): int {
    if sign == ['-'] then -n else n
  }

  /** What Atoi makes of a number, and that anything else is zero and an error. */
  lemma AtoiMeans(s: bytes, sign: bytes, digits: bytes)
    ensures Spells(s, sign, digits) ==>
              var v := Signed(sign, Value(digits));
              Atoi(s) == (Clamp(v), Clamp(v) == v)
    ensures (forall sign, digits :: !Spells(s, sign, digits)) ==> Atoi(s) == (0, false)
  {
    if Spells(s, sign, digits) {
      SignIsNoDigit(sign, digits);
    }
    AtoiSpells(s);
  }

  lemma SignIsNoDigit(sign: bytes, digits: bytes)
    requires Spells(sign + digits, sign, digits)
    ensures (var s := sign + digits;
             && |s| > 0
             && (s[0] == '-' <==> sign == ['-']) && (s[0] == '+' <==> sign == ['+'])
             && digits == if sign == [] then s else s[1..])
  {
    assert IsDigit(digits[0]);
    if sign == [] {
      assert sign + digits == digits;
    }
  }

  lemma AtoiSpells(s: bytes)
    ensures Atoi(s) == (0, false) || exists sign, digits :: Spells(s, sign, digits)
  {
    var sign: bytes := if |s| > 0 && (s[0] == '-' || s[0] == '+') then [s[0]] else [];
    var digits := s[|sign|..];
    assert s == sign + digits;
    if |digits| > 0 && AllDigits(digits) {
      assert Spells(s, sign, digits);
    } else {
      assert Atoi(s) == (0, false);
    }
  }

  /** The decimal digits are those of the usual notation, most significant first. */
  lemma DecimalNotation()
    ensures Decimal(0) == "0" && Decimal(98) == "98" && Decimal(16001) == "16001"
  {
    assert Decimal(160) == "160";
  }

  const TWO32: nat := 0x1_0000_0000

  /** The four little-endian bytes of uint32(n): the conversion wraps. */
  function Le32(n: nat): (b: bytes)
    ensures |b| == 4
  {
    [(n % 256) as char, (n / 256 % 256) as char, (n / 65536 % 256) as char, (n / 16777216 % 256) as char]
  }

  function FromLe32(b: bytes): (n: nat)
    requires |b| == 4
    ensures n < TWO32
  {
    b[0] as int + 256 * b[1] as int + 65536 * b[2] as int + 16777216 * b[3] as int
  }

  /** One byte of a little-endian number. */
  lemma ByteOf(n: nat)
    ensures n == 256 * (n / 256) + n % 256
  {
  }

  lemma Shifts(n: nat)
    ensures n / 65536 == n / 256 / 256
    ensures n / 16777216 == n / 256 / 256 / 256
    ensures n / TWO32 == n / 256 / 256 / 256 / 256
  {
  }

  lemma Le32RoundTrip(n: nat)
    ensures FromLe32(Le32(n)) == n % TWO32
    ensures n < TWO32 ==> FromLe32(Le32(n)) == n
  {
    Shifts(n);
    ByteOf(n);
    ByteOf(n / 256);
    ByteOf(n / 256 / 256);
    ByteOf(n / 256 / 256 / 256);
    assert n == TWO32 * (n / TWO32) + FromLe32(Le32(n));
  }

  lemma FromLe32Injective(b: bytes)
    requires |b| == 4
    ensures Le32(FromLe32(b)) == b
  {
    var n := FromLe32(b);
    var n1 := b[1] as int + 256 * b[2] as int + 65536 * b[3] as int;
    var n2 := b[2] as int + 256 * b[3] as int;
    assert n == b[0] as int + 256 * n1;
    assert n / 256 == n1;
    assert n1 == b[1] as int + 256 * n2;
    assert n1 / 256 == n2 && n / 65536 == n2;
    assert n2 / 256 == b[3] as int && n / 16777216 == b[3] as int;
  }

  /** The least significant byte comes first. */
  lemma LittleEndian()
    ensures FromLe32([1 as char, 2 as char, 3 as char, 4 as char]) == 0x04030201
    ensures Le32(0x04030201) == [1 as char, 2 as char, 3 as char, 4 as char]
    ensures Le32(16) == [16 as char, 0 as char, 0 as char, 0 as char]
  {
    var b: bytes := [1 as char, 2 as char, 3 as char, 4 as char];
    var sixteen: bytes := [16 as char, 0 as char, 0 as char, 0 as char];
    assert FromLe32(b) == 0x04030201 && FromLe32(sixteen) == 16;
    FromLe32Injective(b);
    FromLe32Injective(sixteen);
  }

  // ----- text -----

  function Lower(c: byte): byte {
    if 'A' <= c <= 'Z' then (c as int + 32) as char else c
  }

  function ToLower(s: bytes): (r: bytes)
    ensures |r| == |s| && forall i :: 0 <= i < |s| ==> r[i] == Lower(s[i])
  {
    seq(|s|, i requires 0 <= i < |s| => Lower(s[i]))
  }

  /** strings.EqualFold(s, t) for an ASCII `t`.  Besides the ASCII letters, U+017F folds to `s` and U+212A folds to
      `k`; no other rune folds to an ASCII one. */
  predicate EqualFold(s: bytes, t: bytes) {
    if |t| == 0 then |s| == 0
    else if |s| == 0 then false
    else if s[0] as int < 128 then Lower(s[0]) == Lower(t[0]) && EqualFold(s[1..], t[1..])
    else if HasPrefix(s, [0xC5 as char, 0xBF as char]) then Lower(t[0]) == 's' && EqualFold(s[2..], t[1..])
    else if HasPrefix(s, [0xE2 as char, 0x84 as char, 0xAA as char]) then
      Lower(t[0]) == 'k' && EqualFold(s[3..], t[1..])
    else false
  }

  predicate Ascii(s: bytes) { forall i :: 0 <= i < |s| ==> s[i] as int < 128 }

  /** The same ASCII character, or the two cases of one letter. */
  predicate SameLetter(a: byte, b: byte) {
    || a == b
    || ('A' <= a <= 'Z' && b as int - a as int == 'a' as int - 'A' as int)
    || ('A' <= b <= 'Z' && a as int - b as int == 'a' as int - 'A' as int)
  }

  lemma LowerIff(a: byte, b: byte)
    ensures Lower(a) == Lower(b) <==> SameLetter(a, b)
    ensures 'a' <= b <= 'z' && SameLetter(a, b) ==> Lower(a) == b
  {
  }

  /** The UTF-8 encodings of the runes that fold to an ASCII character: itself, the other case of a letter, U+017F for
      an s and U+212A for a k. */
  predicate FoldsTo(rune: bytes, c: byte) {
    || (|rune| == 1 && SameLetter(rune[0], c))
    || (c in {'s', 'S'} && rune == [0xC5 as char, 0xBF as char])
    || (c in {'k', 'K'} && rune == [0xE2 as char, 0x84 as char, 0xAA as char])
  }

  ghost predicate FoldRune(runes: seq<bytes>, t: bytes) {
    |runes| == |t| && forall i :: 0 <= i < |t| ==> FoldsTo(runes[i], t[i])
  }

  /** A text that is equal under folding is a sequence of runes each of which folds to its character. */
  lemma {:induction false} EqualFoldSound(s: bytes, t: bytes) returns (runes: seq<bytes>)
    requires Ascii(t) && EqualFold(s, t)
    ensures FoldRune(runes, t) && Flatten(runes) == s
  {
    if |t| == 0 {
      runes := [];
    } else {
      var w := if s[0] as int < 128 then 1 else if HasPrefix(s, [0xC5 as char, 0xBF as char]) then 2 else 3;
      LowerIff(s[0], t[0]);
      var rest := EqualFoldSound(s[w..], t[1..]);
      runes := [s[..w]] + rest;
      assert runes[1..] == rest && s == s[..w] + s[w..];
      FirstRune(s, t[0], w);
      assert forall i :: 1 <= i < |t| ==> runes[i] == rest[i - 1] && t[i] == t[1..][i - 1];
    }
  }

  lemma FirstRune(s: bytes, c: byte, w: nat)
    requires |s| > 0 && c as int < 128
    requires w == if s[0] as int < 128 then 1 else if HasPrefix(s, [0xC5 as char, 0xBF as char]) then 2 else 3
    requires w == 1 ==> Lower(s[0]) == Lower(c)
    requires w == 2 ==> Lower(c) == 's'
    requires w == 3 ==> HasPrefix(s, [0xE2 as char, 0x84 as char, 0xAA as char]) && Lower(c) == 'k'
    ensures w <= |s| && FoldsTo(s[..w], c)
  {
    LowerIff(s[0], c);
    LowerIff('S', c);
    LowerIff('K', c);
  }

  /** Every such sequence is equal under folding. */
  lemma {:induction false} EqualFoldComplete(runes: seq<bytes>, t: bytes)
    requires Ascii(t) && FoldRune(runes, t)
    ensures EqualFold(Flatten(runes), t)
    decreases |t|
  {
    if |t| > 0 {
      var (rune, rest) := (runes[0], Flatten(runes[1..]));
      assert forall i :: 0 <= i < |t| - 1 ==> runes[1..][i] == runes[i + 1] && t[1..][i] == t[i + 1];
      EqualFoldComplete(runes[1..], t[1..]);
      FoldFirst(rune, rest, t);
    }
  }

  lemma FoldFirst(rune: bytes, rest: bytes, t: bytes)
    requires |t| > 0 && Ascii(t) && FoldsTo(rune, t[0]) && EqualFold(rest, t[1..])
    ensures EqualFold(rune + rest, t)
  {
    var s := rune + rest;
    assert s[|rune|..] == rest && s[..|rune|] == rune;
    if |rune| == 1 {
      LowerIff(rune[0], t[0]);
    }
  }

  lemma {:induction false} EqualFoldReflexive(t: bytes)
    requires Ascii(t)
    ensures EqualFold(t, t)
  {
    if |t| > 0 {
      EqualFoldReflexive(t[1..]);
    }
  }

  /** Folding is bytewise as long as the constant has neither an s nor a k. */
  lemma {:induction false} EqualFoldPrefix(s: bytes, t: bytes, n: nat)
    requires EqualFold(s, t) && n <= |t|
    requires forall i :: 0 <= i < n ==> Lower(t[i]) != 's' && Lower(t[i]) != 'k'
    ensures n <= |s|
    ensures forall i :: 0 <= i < n ==> Lower(s[i]) == Lower(t[i])
  {
    if n > 0 {
      EqualFoldPrefix(s[1..], t[1..], n - 1);
      forall i | 0 <= i < n ensures Lower(s[i]) == Lower(t[i]) {
        if i > 0 {
          assert s[i] == s[1..][i - 1] && t[i] == t[1..][i - 1];
        }
      }
    }
  }

  lemma {:induction false} EqualFoldLast(s: bytes, t: bytes)
    requires EqualFold(s, t) && |t| > 0
    requires Lower(t[|t| - 1]) != 's' && Lower(t[|t| - 1]) != 'k'
    ensures |s| > 0 && Lower(s[|s| - 1]) == Lower(t[|t| - 1])
  {
    if |t| > 1 {
      var w := if s[0] as int < 128 then 1 else if HasPrefix(s, [0xC5 as char, 0xBF as char]) then 2 else 3;
      EqualFoldLast(s[w..], t[1..]);
    }
  }

  lemma FoldEndsOtherwise(s: bytes, t: bytes, c: byte)
    requires EqualFold(s, t) && |t| > 0
    requires Lower(t[|t| - 1]) != 's' && Lower(t[|t| - 1]) != 'k' && Lower(t[|t| - 1]) != Lower(c)
    ensures |s| > 0 && s[|s| - 1] != c
  {
    EqualFoldLast(s, t);
  }

  /** Folding brings in no ASCII byte of its own. */
  lemma {:induction false} EqualFoldLacks(s: bytes, t: bytes, c: byte)
    requires EqualFold(s, t) && c as int < 128 && Lower(c) == c && !('a' <= c <= 'z')
    requires forall i :: 0 <= i < |t| ==> t[i] != c
    ensures forall i :: 0 <= i < |s| ==> s[i] != c
  {
    if |t| > 0 {
      var w := if s[0] as int < 128 then 1 else if HasPrefix(s, [0xC5 as char, 0xBF as char]) then 2 else 3;
      EqualFoldLacks(s[w..], t[1..], c);
      assert s == s[..w] + s[w..];
      if w == 2 {
        assert s[..2] == [0xC5 as char, 0xBF as char];
      } else if w == 3 {
        assert s[..3] == [0xE2 as char, 0x84 as char, 0xAA as char];
      }
    }
  }

  /** The folded text has no byte below 0x20 when the constant has none. */
  lemma {:induction false} EqualFoldPrintable(s: bytes, t: bytes)
    requires EqualFold(s, t)
    requires forall i :: 0 <= i < |t| ==> 0x20 <= t[i] as int < 128
    ensures forall i :: 0 <= i < |s| ==> 0x20 <= s[i] as int
  {
    if |t| > 0 {
      var w := if s[0] as int < 128 then 1 else if HasPrefix(s, [0xC5 as char, 0xBF as char]) then 2 else 3;
      EqualFoldPrintable(s[w..], t[1..]);
      assert s == s[..w] + s[w..];
      if w == 2 {
        assert s[..2] == [0xC5 as char, 0xBF as char];
      } else if w == 3 {
        assert s[..3] == [0xE2 as char, 0x84 as char, 0xAA as char];
      }
    }
  }

  /** The UTF-8 encodings of the runes for which unicode.IsSpace holds. */
  predicate IsSpace(w: bytes) {
    if |w| == 1 then w[0] == ' ' || 9 <= w[0] as int <= 13
    else if |w| == 2 then w[0] as int == 0xC2 && (w[1] as int == 0x85 || w[1] as int == 0xA0)
    else if |w| == 3 then
      var second, third := w[1] as int, w[2] as int;
      match w[0] as int
      case 0xE1 => second == 0x9A && third == 0x80
      case 0xE2 =>
        || (second == 0x80 && (0x80 <= third <= 0x8A || third == 0xA8 || third == 0xA9 || third == 0xAF))
        || (second == 0x81 && third == 0x9F)
      case 0xE3 => second == 0x80 && third == 0x80
      case _ => false
    else false
  }

  function TrimLeft(s: bytes): bytes {
    if |s| >= 1 && IsSpace(s[..1]) then TrimLeft(s[1..])
    else if |s| >= 2 && IsSpace(s[..2]) then TrimLeft(s[2..])
    else if |s| >= 3 && IsSpace(s[..3]) then TrimLeft(s[3..])
    else s
  }

  function TrimRight(s: bytes): bytes {
    if |s| >= 1 && IsSpace(s[|s| - 1..]) then TrimRight(s[..|s| - 1])
    else if |s| >= 2 && IsSpace(s[|s| - 2..]) then TrimRight(s[..|s| - 2])
    else if |s| >= 3 && IsSpace(s[|s| - 3..]) then TrimRight(s[..|s| - 3])
    else s
  }

  function TrimSpace(s: bytes): bytes {
    TrimRight(TrimLeft(s))
  }

  // ----- padding -----

  predicate AsciiSpace(c: byte) {
    c in {' ', '\t', '\n', '\r', 0x0B as char, 0x0C as char}
  }

  predicate Blank(s: bytes) { forall i :: 0 <= i < |s| ==> AsciiSpace(s[i]) }

  lemma NotSpace(w: bytes, i: nat)
    requires i < |w| <= 3 && w[i] as int < 128 && !AsciiSpace(w[i]) && (i == 0 || i == |w| - 1)
    ensures !IsSpace(w)
  {
  }

  lemma TrimLeftStops(s: bytes)
    requires |s| > 0 && s[0] as int < 128 && !AsciiSpace(s[0])
    ensures TrimLeft(s) == s
  {
    NotSpace(s[..1], 0);
    if |s| > 1 {
      NotSpace(s[..2], 0);
    }
    if |s| > 2 {
      NotSpace(s[..3], 0);
    }
  }

  lemma LastIsNoSpace(s: bytes, w: nat)
    requires 1 <= w <= 3 && w <= |s| && s[|s| - 1] as int < 128 && !AsciiSpace(s[|s| - 1])
    ensures !IsSpace(s[|s| - w..])
  {
    NotSpace(s[|s| - w..], w - 1);
  }

  lemma TrimRightStops(s: bytes)
    requires |s| > 0 && s[|s| - 1] as int < 128 && !AsciiSpace(s[|s| - 1])
    ensures TrimRight(s) == s
  {
    LastIsNoSpace(s, 1);
    if |s| > 1 {
      LastIsNoSpace(s, 2);
    }
    if |s| > 2 {
      LastIsNoSpace(s, 3);
    }
  }

  lemma {:induction false} TrimLeftBlank(left: bytes, text: bytes)
    requires Blank(left) && (|text| > 0 ==> text[0] as int < 128 && !AsciiSpace(text[0]))
    ensures TrimLeft(left + text) == text
  {
    var s := left + text;
    if |left| == 0 {
      assert s == text;
      if |text| > 0 {
        TrimLeftStops(text);
      }
    } else {
      assert s[..1] == [left[0]] && s[1..] == left[1..] + text;
      TrimLeftBlank(left[1..], text);
    }
  }

  lemma TrimRightOne(s: bytes, c: byte)
    requires AsciiSpace(c)
    ensures TrimRight(s + [c]) == TrimRight(s)
  {
    var t := s + [c];
    assert t[|t| - 1..] == [c] && t[..|t| - 1] == s;
  }

  lemma {:induction false} TrimRightBlank(text: bytes, right: bytes)
    requires Blank(right) && (|text| > 0 ==> text[|text| - 1] as int < 128 && !AsciiSpace(text[|text| - 1]))
    ensures TrimRight(text + right) == text
    decreases |right|
  {
    if |right| == 0 {
      assert text + right == text;
      if |text| > 0 {
        TrimRightStops(text);
      }
    } else {
      var n := |right| - 1;
      assert text + right == (text + right[..n]) + [right[n]];
      TrimRightOne(text + right[..n], right[n]);
      TrimRightBlank(text, right[..n]);
    }
  }

  /** Trimming removes ASCII padding on both sides of a text that begins and ends in another ASCII character, and
      nothing else. */
  lemma TrimPadding(left: bytes, text: bytes, right: bytes)
    requires Blank(left) && Blank(right) && |text| > 0
    requires text[0] as int < 128 && !AsciiSpace(text[0])
    requires text[|text| - 1] as int < 128 && !AsciiSpace(text[|text| - 1])
    ensures TrimSpace(left + text + right) == text
  {
    assert left + text + right == left + (text + right);
    TrimLeftBlank(left, text + right);
    TrimRightBlank(text, right);
  }

  lemma TrimBlank(s: bytes)
    requires Blank(s)
    ensures TrimSpace(s) == []
  {
    assert s + [] == s;
    TrimLeftBlank(s, []);
  }
}
