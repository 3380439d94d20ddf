/**
 * The wc clone of 4.Word_Count/main.go: the arguments choose a flag and a
 * file, the input is scanned as bytes, lines or words, and the program
 * reports one count per flag, or lines, words and characters together when
 * no flag is given.
 *
 * The input is a byte sequence: standard input is a parameter and the files
 * that can be opened are a map from name to contents.  The library pieces the
 * counts rest on are defined here: UTF-8 rune decoding as `utf8.DecodeRune`
 * and `utf8.RuneCountInString` do it, and the tokens of `bufio.ScanLines`
 * and `bufio.ScanWords`.  `log.Fatal` becomes a `Fault`, and what is printed
 * becomes a `Report`.
 */
module WordCount {
  import opened Wrappers

  type byte = x: int | 0 <= x < 0x100

  const Newline: byte := 0x0A
  const CarriageReturn: byte := 0x0D
  /** U+FFFD, what decoding yields for a byte that starts no valid rune. */
  const RuneError: int := 0xFFFD

  // ---------------------------------------------------------------------
  // UTF-8 decoding (utf8.DecodeRune, utf8.RuneCountInString)
  // ---------------------------------------------------------------------

  /** The length of the sequence a leading byte announces: 1 for ASCII, 2 to
    * 4 for a valid leading byte, 0 for a byte that cannot lead. */
  function Size(c: byte): (n: nat)
    ensures n <= 4 && (n != 1 ==> c >= 0x80)
  {
    if c < 0x80 then 1
    else if c < 0xC2 then 0
    else if c < 0xE0 then 2
    else if c < 0xF0 then 3
    else if c < 0xF5 then 4
    else 0
  }

  /** The range the second byte must fall in, narrower after E0, ED, F0 and
    * F4 so that overlong forms, surrogates and values past U+10FFFF are
    * refused. */
  function SecondLow(c: byte): int
  {
    if c == 0xE0 then 0xA0 else if c == 0xF0 then 0x90 else 0x80
  }

  function SecondHigh(c: byte): int
  {
    if c == 0xED then 0x9F else if c == 0xF4 then 0x8F else 0xBF
  }

  /** Byte `k` of `s` exists and lies in `lo..hi`. */
  predicate Cont(s: seq<byte>, k: nat, lo: int, hi: int)
  {
    k < |s| && lo <= s[k] <= hi
  }

  /** The `n - 1` bytes after the leading byte are all acceptable. */
  predicate WellFormed(s: seq<byte>, n: nat)
    requires s != [] && 2 <= n <= 4
  {
    Cont(s, 1, SecondLow(s[0]), SecondHigh(s[0])) &&
    (n < 3 || Cont(s, 2, 0x80, 0xBF)) &&
    (n < 4 || Cont(s, 3, 0x80, 0xBF))
  }

  /** The code point of a well-formed sequence of `n` bytes. */
  function Value(s: seq<byte>, n: nat): int
    requires 2 <= n <= 4 && n <= |s|
  {
    var b0, b1 := s[0] as int, s[1] as int;
    if n == 2 then (b0 - 0xC0) * 64 + (b1 - 0x80)
    else if n == 3 then (b0 - 0xE0) * 4096 + (b1 - 0x80) * 64 + (s[2] as int - 0x80)
    else (b0 - 0xF0) * 262144 + (b1 - 0x80) * 4096 + (s[2] as int - 0x80) * 64 + (s[3] as int - 0x80)
  }

  /** `utf8.DecodeRune` on a non-empty input: the first rune and its width;
    * a byte that starts no valid sequence decodes as RuneError of width 1. */
  function DecodeRune(s: seq<byte>): (r: (int, nat))
    requires s != []
    ensures 1 <= r.1 <= 4 && r.1 <= |s|
    ensures s[0] < 0x80 ==> r == (s[0], 1)
  {
    var n := Size(s[0]);
    if n == 1 then (s[0], 1)
    else if n == 0 || !WellFormed(s, n) then (RuneError, 1)
    else (Value(s, n), n)
  }

  /** The runes of `s`, decoded front to back. */
  function Runes(s: seq<byte>): (r: seq<int>)
    ensures |r| <= |s| <= 4 * |r|
    decreases |s|
  {
    if s == [] then []
    else
      var (rune, width) := DecodeRune(s);
      [rune] + Runes(s[width..])
  }

  /** `utf8.RuneCountInString`: the number of runes decoding finds. */
  function RuneCount(s: seq<byte>): nat
  {
    |Runes(s)|
  }

  /** Text made only of ASCII bytes has one rune per byte, each the byte. */
  lemma {:induction false} AsciiRunes(s: seq<byte>)
    requires forall i :: 0 <= i < |s| ==> s[i] < 0x80
    ensures Runes(s) == s
    decreases |s|
  {
    if s != [] {
      AsciiRunes(s[1..]);
      assert s == [s[0]] + s[1..];
    }
  }

  /** What follows an ASCII byte cannot change how the bytes before it
    * decode: an ASCII byte is never a continuation byte. */
  lemma {:induction false} ContExtend(a: seq<byte>, b: byte, c: seq<byte>, k: nat, lo: int, hi: int)
    requires b < 0x80 && 0x80 <= lo && k <= |a|
    ensures Cont(a + [b] + c, k, lo, hi) == Cont(a, k, lo, hi)
  {
    var s := a + [b] + c;
    if k < |a| {
      assert s[k] == a[k];
    } else if k == |a| {
      assert s[k] == b;
      assert !Cont(s, k, lo, hi) && !Cont(a, k, lo, hi);
    }
  }

  lemma {:induction false} DecodeExtend(a: seq<byte>, b: byte, c: seq<byte>)
    requires a != [] && b < 0x80
    ensures DecodeRune(a + [b] + c) == DecodeRune(a)
  {
    var s := a + [b] + c;
    assert s[0] == a[0];
    var n := Size(a[0]);
    if 2 <= n {
      ContExtend(a, b, c, 1, SecondLow(a[0]), SecondHigh(a[0]));
      if 2 <= |a| {
        ContExtend(a, b, c, 2, 0x80, 0xBF);
      }
      if 3 <= |a| {
        ContExtend(a, b, c, 3, 0x80, 0xBF);
      }
      assert WellFormed(s, n) == WellFormed(a, n);
      if WellFormed(a, n) {
        assert s[..n] == a[..n];
        assert s[1] == a[1];
        assert n >= 3 ==> s[2] == a[2];
        assert n >= 4 ==> s[3] == a[3];
      }
    }
  }

  /** Decoding splits at an ASCII byte: the runes of what precedes it, the
    * byte itself, and the runes of what follows. */
  lemma {:induction false} RunesSplit(a: seq<byte>, b: byte, c: seq<byte>)
    requires b < 0x80
    ensures Runes(a + [b] + c) == Runes(a) + [b] + Runes(c)
    decreases |a|
  {
    var s := a + [b] + c;
    if a == [] {
      assert s == [b] + c;
      assert s[1..] == c;
    } else {
      DecodeExtend(a, b, c);
      var w := DecodeRune(a).1;
      assert s[w..] == a[w..] + [b] + c;
      RunesSplit(a[w..], b, c);
    }
  }

  /** A Unicode scalar value: a code point that is not a surrogate. */
  predicate ScalarValue(c: int)
  {
    0 <= c < 0x110000 && !(0xD800 <= c < 0xE000)
  }

  /** The UTF-8 encoding of a scalar value (section 3 of RFC 3629). */
  function EncodeRune(c: int): (r: seq<byte>)
    requires ScalarValue(c)
    ensures 1 <= |r| <= 4
  {
    if c < 0x80 then [c]
    else if c < 0x800 then [0xC0 + c / 64, 0x80 + c % 64]
    else if c < 0x10000 then
      var q := c / 64;
      [0xE0 + q / 64, 0x80 + q % 64, 0x80 + c % 64]
    else
      var q := c / 64;
      var q2 := q / 64;
      [0xF0 + q2 / 64, 0x80 + q2 % 64, 0x80 + q % 64, 0x80 + c % 64]
  }

  /** The encodings of a sequence of scalar values, one after another. */
  function EncodeAll(cs: seq<int>): seq<byte>
    requires forall i :: 0 <= i < |cs| ==> ScalarValue(cs[i])
    decreases |cs|
  {
    if cs == [] then [] else EncodeRune(cs[0]) + EncodeAll(cs[1..])
  }

  lemma {:induction false} DecodeTwo(c: int, rest: seq<byte>)
    requires 0x80 <= c < 0x800
    ensures DecodeRune(EncodeRune(c) + rest) == (c, 2)
  {
    var s := EncodeRune(c) + rest;
    assert s[0] == 0xC0 + c / 64 && s[1] == 0x80 + c % 64;
    assert Size(s[0]) == 2;
    assert WellFormed(s, 2);
  }

  lemma {:induction false} DecodeThree(c: int, rest: seq<byte>)
    requires 0x800 <= c < 0x10000 && ScalarValue(c)
    ensures DecodeRune(EncodeRune(c) + rest) == (c, 3)
  {
    var q := c / 64;
    var s := EncodeRune(c) + rest;
    assert s[0] == 0xE0 + q / 64 && s[1] == 0x80 + q % 64 && s[2] == 0x80 + c % 64;
    assert 32 <= q < 1024;
    assert q / 64 == 0 ==> q % 64 >= 32;
    assert q / 64 == 13 ==> q < 0x360 && q % 64 < 32;
    assert Size(s[0]) == 3;
    assert WellFormed(s, 3);
    assert (q / 64) * 4096 + (q % 64) * 64 == 64 * q;
  }

  lemma {:induction false} DecodeFour(c: int, rest: seq<byte>)
    requires 0x10000 <= c < 0x110000
    ensures DecodeRune(EncodeRune(c) + rest) == (c, 4)
  {
    var q := c / 64;
    var q2 := q / 64;
    var s := EncodeRune(c) + rest;
    assert s[0] == 0xF0 + q2 / 64 && s[1] == 0x80 + q2 % 64;
    assert s[2] == 0x80 + q % 64 && s[3] == 0x80 + c % 64;
    assert 16 <= q2 < 272;
    assert q2 / 64 == 0 ==> q2 % 64 >= 16;
    assert q2 / 64 == 4 ==> q2 % 64 < 16;
    assert Size(s[0]) == 4;
    assert WellFormed(s, 4);
    assert (q2 / 64) * 64 + q2 % 64 == q2;
    assert q2 * 64 + q % 64 == q;
  }

  /** Decoding an encoded scalar value gives it back, with the width of its
    * encoding. */
  lemma {:induction false} DecodeEncode(c: int, rest: seq<byte>)
    requires ScalarValue(c)
    ensures DecodeRune(EncodeRune(c) + rest) == (c, |EncodeRune(c)|)
  {
    if c < 0x80 {
      assert (EncodeRune(c) + rest)[0] == c;
    } else if c < 0x800 {
      DecodeTwo(c, rest);
    } else if c < 0x10000 {
      DecodeThree(c, rest);
    } else {
      DecodeFour(c, rest);
    }
  }

  /** Decoding the encoding of scalar values gives them back, so the rune
    * count of well-formed text is its number of scalar values. */
  lemma {:induction false} RunesEncodeAll(cs: seq<int>)
    requires forall i :: 0 <= i < |cs| ==> ScalarValue(cs[i])
    ensures Runes(EncodeAll(cs)) == cs
    ensures RuneCount(EncodeAll(cs)) == |cs|
    decreases |cs|
  {
    if cs != [] {
      var e := EncodeRune(cs[0]);
      var rest := EncodeAll(cs[1..]);
      DecodeEncode(cs[0], rest);
      assert (e + rest)[|e|..] == rest;
      RunesEncodeAll(cs[1..]);
      assert cs == [cs[0]] + cs[1..];
    }
  }

  // ---------------------------------------------------------------------
  // bufio.ScanLines
  // ---------------------------------------------------------------------

  /** The first position of `b` in `data`, or -1 (`bytes.IndexByte`). */
  function IndexByte(data: seq<byte>, b: byte): (i: int)
    ensures -1 <= i < |data|
    ensures i >= 0 ==> data[i] == b && b !in data[..i]
    ensures i < 0 ==> b !in data
    decreases |data|
  {
    if data == [] then -1
    else if data[0] == b then 0
    else
      var j := IndexByte(data[1..], b);
      assert data[1..][..j + 1] == data[1..j + 2] by {
        if j >= 0 { assert data[1..j + 2] == data[1..][..j + 1]; }
      }
      if j < 0 then -1 else j + 1
  }

  /** A line with one final carriage return removed. */
  function DropCR(line: seq<byte>): seq<byte>
  {
    if line != [] && line[|line| - 1] == CarriageReturn then line[..|line| - 1] else line
  }

  /** The tokens of `bufio.ScanLines`: the text up to each newline, without
    * the newline and a carriage return before it, and a last line when text
    * follows the final newline. */
  function Lines(data: seq<byte>): (r: seq<seq<byte>>)
    ensures forall k :: 0 <= k < |r| ==> Newline !in r[k]
    decreases |data|
  {
    if data == [] then []
    else
      var i := IndexByte(data, Newline);
      if i < 0 then [DropCR(data)]
      else
        assert forall x :: x in DropCR(data[..i]) ==> x in data[..i];
        [DropCR(data[..i])] + Lines(data[i + 1..])
  }

  /** The input does not end in the middle of a line. */
  predicate EndsLine(data: seq<byte>)
  {
    data == [] || data[|data| - 1] == Newline
  }

  /** One line per newline, and one more when text follows the last one. */
  lemma {:induction false} LineCount(data: seq<byte>)
    ensures |Lines(data)| == multiset(data)[Newline] + (if EndsLine(data) then 0 else 1)
    decreases |data|
  {
    if data != [] {
      var i := IndexByte(data, Newline);
      if i >= 0 {
        var rest := data[i + 1..];
        assert data == data[..i] + [Newline] + rest;
        assert multiset(data[..i])[Newline] == 0;
        LineCount(rest);
        if rest != [] {
          assert data[|data| - 1] == rest[|rest| - 1];
        }
      } else {
        assert multiset(data)[Newline] == 0;
      }
    }
  }

  // ---------------------------------------------------------------------
  // bufio.ScanWords
  // ---------------------------------------------------------------------

  /** The white space `bufio.ScanWords` separates words by (the White_Space
    * characters of Unicode). */
  predicate IsSpace(r: int)
  {
    if r <= 0xFF then
      r == 0x20 || (0x09 <= r <= 0x0D) || r == 0x85 || r == 0xA0
    else
      (0x2000 <= r <= 0x200A) || r == 0x1680 || r == 0x2028 || r == 0x2029 ||
      r == 0x202F || r == 0x205F || r == 0x3000
  }

  /** The length of the run of non-space runes at the front. */
  function RunLength(rs: seq<int>): (n: nat)
    requires rs != [] && !IsSpace(rs[0])
    ensures 1 <= n <= |rs|
    ensures forall i :: 0 <= i < n ==> !IsSpace(rs[i])
    ensures n < |rs| ==> IsSpace(rs[n])
    decreases |rs|
  {
    if |rs| == 1 || IsSpace(rs[1]) then 1 else 1 + RunLength(rs[1..])
  }

  /** The tokens of `bufio.ScanWords`: leading space skipped, then each
    * maximal run of non-space runes. */
  function Words(rs: seq<int>): (r: seq<seq<int>>)
    ensures forall k :: 0 <= k < |r| ==> r[k] != [] && forall i :: 0 <= i < |r[k]| ==> !IsSpace(r[k][i])
    decreases |rs|
  {
    if rs == [] then []
    else if IsSpace(rs[0]) then Words(rs[1..])
    else
      var n := RunLength(rs);
      [rs[..n]] + Words(rs[n..])
  }

  /** How many runes start a word: non-space runes at the front or after a
    * space, counted from a state that says whether a space came last. */
  function WordStarts(rs: seq<int>, afterSpace: bool): nat
    decreases |rs|
  {
    if rs == [] then 0
    else (if afterSpace && !IsSpace(rs[0]) then 1 else 0) + WordStarts(rs[1..], IsSpace(rs[0]))
  }

  /** The words of a sequence of runes, counted by where they start. */
  function WordCountOf(rs: seq<int>): nat
  {
    WordStarts(rs, true)
  }

  /** Inside a run of non-space runes no word starts. */
  lemma {:induction false} StartsInRun(rs: seq<int>, n: nat)
    requires n <= |rs|
    requires forall i :: 0 <= i < n ==> !IsSpace(rs[i])
    ensures WordStarts(rs, false) == WordStarts(rs[n..], false)
    decreases n
  {
    if n > 0 {
      StartsInRun(rs[1..], n - 1);
      assert rs[1..][n - 1..] == rs[n..];
    }
  }

  /** The scanner yields one token per word start. */
  lemma {:induction false} WordsCounted(rs: seq<int>)
    ensures |Words(rs)| == WordCountOf(rs)
    decreases |rs|
  {
    if rs != [] {
      if IsSpace(rs[0]) {
        WordsCounted(rs[1..]);
        assert WordStarts(rs, true) == WordStarts(rs[1..], true);
      } else {
        var n := RunLength(rs);
        WordsCounted(rs[n..]);
        assert forall i :: 0 <= i < n - 1 ==> !IsSpace(rs[1..][i]) by {
          forall i | 0 <= i < n - 1 ensures !IsSpace(rs[1..][i]) {
            assert rs[1..][i] == rs[i + 1];
          }
        }
        StartsInRun(rs[1..], n - 1);
        assert rs[1..][n - 1..] == rs[n..];
        var t := rs[n..];
        if t != [] {
          assert IsSpace(t[0]);
          assert WordStarts(t, false) == WordStarts(t[1..], true);
          assert WordStarts(t, true) == WordStarts(t[1..], true);
        }
        assert WordStarts(rs, true) == 1 + WordStarts(rs[1..], false);
        assert |Words(rs)| == 1 + |Words(t)|;
      }
    }
  }

  lemma {:induction false} StartsSpace(rs: seq<int>, afterSpace: bool)
    ensures WordStarts(rs, afterSpace) <= WordStarts(rs, true)
    ensures rs != [] && IsSpace(rs[0]) ==> WordStarts(rs, afterSpace) == WordStarts(rs, true)
  {
  }

  /** A space between two texts separates their words: the count of the
    * whole is the sum of the counts. */
  lemma {:induction false} WordsSeparated(a: seq<int>, space: int, b: seq<int>, afterSpace: bool)
    requires IsSpace(space)
    ensures WordStarts(a + [space] + b, afterSpace) == WordStarts(a, afterSpace) + WordStarts(b, true)
    decreases |a|
  {
    var s := a + [space] + b;
    if a == [] {
      assert s == [space] + b;
      assert s[1..] == b;
    } else {
      assert s[0] == a[0];
      assert s[1..] == a[1..] + [space] + b;
      WordsSeparated(a[1..], space, b, IsSpace(a[0]));
    }
  }

  /** No word at all exactly when every rune is a space. */
  lemma {:induction false} NoWordsIffBlank(rs: seq<int>)
    ensures WordCountOf(rs) == 0 <==> forall i :: 0 <= i < |rs| ==> IsSpace(rs[i])
    decreases |rs|
  {
    if rs != [] && IsSpace(rs[0]) {
      NoWordsIffBlank(rs[1..]);
      assert forall i :: 1 <= i < |rs| ==> rs[i] == rs[1..][i - 1];
    }
  }

  // ---------------------------------------------------------------------
  // processFlag, readChars, readLines, readWords
  // ---------------------------------------------------------------------

  /** The `-m` total: for each line its runes and one more. */
  function RunesPlusOne(lines: seq<seq<byte>>): nat
    decreases |lines|
  {
    if lines == [] then 0 else RuneCount(lines[0]) + 1 + RunesPlusOne(lines[1..])
  }

  /** The input contains no carriage return. */
  predicate NoCR(data: seq<byte>)
  {
    CarriageReturn !in data
  }

  /** Past a newline, the rest ends a line exactly when the whole does. */
  lemma {:induction false} EndsLineAfter(data: seq<byte>, i: nat)
    requires i < |data| && data[i] == Newline
    ensures EndsLine(data[i + 1..]) == EndsLine(data)
  {
    var rest := data[i + 1..];
    if rest != [] {
      assert rest[|rest| - 1] == data[|data| - 1];
    }
  }

  /** Without carriage returns, the `-m` total is the number of runes in the
    * input, plus one when the last line has no newline: the newline of
    * each line is counted as its "+1". */
  lemma {:induction false} RunesPlusOneCountsRunes(data: seq<byte>)
    requires NoCR(data)
    ensures RunesPlusOne(Lines(data)) == RuneCount(data) + (if EndsLine(data) then 0 else 1)
    decreases |data|
  {
    if data != [] {
      var i := IndexByte(data, Newline);
      if i >= 0 {
        var line := data[..i];
        var rest := data[i + 1..];
        assert data == line + [Newline] + rest;
        assert CarriageReturn !in line && CarriageReturn !in rest by {
          assert forall x :: x in line ==> x in data;
          assert forall x :: x in rest ==> x in data;
        }
        assert DropCR(line) == line by {
          if line != [] { assert line[|line| - 1] in line; }
        }
        RunesSplit(line, Newline, rest);
        RunesPlusOneCountsRunes(rest);
        assert Lines(data) == [line] + Lines(rest);
        assert Lines(data)[1..] == Lines(rest);
        assert RunesPlusOne(Lines(data)) == RuneCount(line) + 1 + RunesPlusOne(Lines(rest));
        assert RuneCount(data) == RuneCount(line) + 1 + RuneCount(rest);
        EndsLineAfter(data, i);
      } else {
        assert DropCR(data) == data by {
          assert data[|data| - 1] in data;
        }
        assert Lines(data) == [data];
        assert Lines(data)[1..] == [];
        assert data[|data| - 1] != Newline by {
          assert data[|data| - 1] in data;
        }
      }
    }
  }

  /** Why the program stops: `log.Fatal` with a usage message, the run-time
    * panic of indexing an empty argument, a file that cannot be opened, or
    * an unknown flag. */
  datatype Fault = Usage | IndexOutOfRange | OpenFailed(file: string) | InvalidFlag(flag: string)

  /** The count a flag selects, or the fault of an unknown flag. */
  function FlagCount(data: seq<byte>, flag: string): Result<nat, Fault>
  {
    if flag == "-c" then Success(|data|)
    else if flag == "-l" then Success(|Lines(data)|)
    else if flag == "-m" then Success(RunesPlusOne(Lines(data)))
    else if flag == "-w" then Success(|Words(Runes(data))|)
    else Failure(InvalidFlag(flag))
  }

  /** What the flags count: -c the bytes, -l the newlines (and a last
    * unterminated line), -w the words, -m the runes and newlines of
    * carriage-return-free text; every other flag is fatal. */
  lemma {:induction false} FlagMeaning(data: seq<byte>, flag: string)
    ensures flag == "-c" ==> FlagCount(data, flag) == Success(|data|)
    ensures flag == "-l" ==>
      FlagCount(data, flag) == Success(multiset(data)[Newline] + (if EndsLine(data) then 0 else 1))
    ensures flag == "-w" ==> FlagCount(data, flag) == Success(WordCountOf(Runes(data)))
    ensures flag == "-m" && NoCR(data) ==>
      FlagCount(data, flag) == Success(RuneCount(data) + (if EndsLine(data) then 0 else 1))
    ensures FlagCount(data, flag).Failure? <==> flag != "-c" && flag != "-l" && flag != "-m" && flag != "-w"
  {
    if flag == "-l" {
      LineCount(data);
    } else if flag == "-w" {
      WordsCounted(Runes(data));
    } else if flag == "-m" && NoCR(data) {
      RunesPlusOneCountsRunes(data);
    }
  }

  /** `readChars`: one token per byte, counted. */
  method ReadChars(data: seq<byte>) returns (count: nat)
    ensures count == |data|
  {
    count := 0;
    for i := 0 to |data|
      invariant count == i
    {
      count := count + 1;
    }
  }

  /** `readLines`: one per line, or for `-m` the runes of the line plus one. */
  method ReadLines(data: seq<byte>, flag: string) returns (count: nat)
    ensures flag == "-m" ==> count == RunesPlusOne(Lines(data))
    ensures flag != "-m" ==> count == |Lines(data)|
  {
    var lines := Lines(data);
    count := 0;
    for i := 0 to |lines|
      invariant flag == "-m" ==> count + RunesPlusOne(lines[i..]) == RunesPlusOne(lines)
      invariant flag != "-m" ==> count == i
    {
      assert lines[i..][1..] == lines[i + 1..];
      if flag == "-m" {
        count := count + RuneCount(lines[i]) + 1;
      } else {
        count := count + 1;
      }
    }
    assert lines[|lines|..] == [];
  }

  /** `readWords`: one per word token. */
  method ReadWords(data: seq<byte>) returns (count: nat)
    ensures count == WordCountOf(Runes(data))
  {
    var words := Words(Runes(data));
    count := 0;
    for i := 0 to |words|
      invariant count == i
    {
      count := count + 1;
    }
    WordsCounted(Runes(data));
  }

  /** `processFlag`: the count of the flag, or the fatal error. */
  method ProcessFlag(data: seq<byte>, flag: string) returns (r: Result<nat, Fault>)
    ensures r == FlagCount(data, flag)
  {
    if flag == "-c" {
      var n := ReadChars(data);
      return Success(n);
    } else if flag == "-l" || flag == "-m" {
      var n := ReadLines(data, flag);
      return Success(n);
    } else if flag == "-w" {
      var n := ReadWords(data);
      WordsCounted(Runes(data));
      return Success(n);
    }
    return Failure(InvalidFlag(flag));
  }

  /** `processAll`: lines, words and the `-m` total in two passes over the
    * file.  Given no open file (standard input, where `f` is nil), every
    * read fails at once and all three counts are zero. */
  method ProcessAll(file: Option<seq<byte>>) returns (lines: nat, words: nat, chars: nat)
    ensures file.None? ==> lines == 0 && words == 0 && chars == 0
    ensures file.Some? ==>
      lines == |Lines(file.value)| && chars == RunesPlusOne(Lines(file.value)) &&
      words == WordCountOf(Runes(file.value))
  {
    if file.None? {
      return 0, 0, 0;
    }
    var data := file.value;
    var ls := Lines(data);
    lines, chars := 0, 0;
    for i := 0 to |ls|
      invariant lines == i
      invariant chars + RunesPlusOne(ls[i..]) == RunesPlusOne(ls)
    {
      assert ls[i..][1..] == ls[i + 1..];
      lines := lines + 1;
      chars := chars + RuneCount(ls[i]) + 1;
    }
    assert ls[|ls|..] == [];
    words := ReadWords(data);
  }

  // ---------------------------------------------------------------------
  // main
  // ---------------------------------------------------------------------

  /** The flag and the file `main` reads from its arguments; "" is absent. */
  datatype Invocation = Invocation(flag: string, file: string)

  /** Argument classification (`args[0]` is the program name). */
  function Classify(args: seq<string>): Result<Invocation, Fault>
  {
    if |args| < 2 then Failure(Usage)
    else if |args| == 2 then
      if args[1] == "" then Failure(IndexOutOfRange)
      else if args[1][0] == '-' then Success(Invocation(args[1], ""))
      else Success(Invocation("", args[1]))
    else Success(Invocation(args[1], args[2]))
  }

  /** How the arguments are read: no argument is a usage error; a single
    * argument is the flag exactly when it starts with '-' and the file
    * otherwise, the other being absent; with more, the first is the flag
    * and the second the file, whatever they look like. */
  lemma {:induction false} ClassifyCases(args: seq<string>)
    ensures Classify(args) == Failure(Usage) <==> |args| < 2
    ensures |args| == 2 && args[1] != "" ==>
      Classify(args).Success? &&
      (Classify(args).value.flag == args[1] <==> args[1][0] == '-') &&
      (Classify(args).value.file == args[1] <==> args[1][0] != '-') &&
      (Classify(args).value.flag == "" || Classify(args).value.file == "")
    ensures |args| > 2 ==> Classify(args) == Success(Invocation(args[1], args[2]))
  {
  }

  /** "-" and "" name standard input. */
  predicate UsesStdin(file: string)
  {
    file == "-" || file == ""
  }

  /** What the program reports on success. */
  datatype Report = Count(n: nat) | Totals(lines: nat, words: nat, chars: nat, file: string)

  /** `main`: classify the arguments, open the file (before the flag is
    * looked at), then either count per the flag or report all three
    * totals. */
  method Run(args: seq<string>, stdin: seq<byte>, files: map<string, seq<byte>>) returns (r: Result<Report, Fault>)
    ensures Classify(args).Failure? ==> r == Failure(Classify(args).error)
    ensures Classify(args).Success? ==>
      var inv := Classify(args).value;
      if !UsesStdin(inv.file) && inv.file !in files then r == Failure(OpenFailed(inv.file))
      else
        var data := if UsesStdin(inv.file) then stdin else files[inv.file];
        if inv.flag == "" then
          if UsesStdin(inv.file) then r == Success(Totals(0, 0, 0, inv.file))
          else r == Success(Totals(|Lines(data)|, WordCountOf(Runes(data)), RunesPlusOne(Lines(data)), inv.file))
        else
          match FlagCount(data, inv.flag)
          case Success(n) => r == Success(Count(n))
          case Failure(e) => r == Failure(e)
  {
    var classified := Classify(args);
    if classified.Failure? {
      return Failure(classified.error);
    }
    var flag, file := classified.value.flag, classified.value.file;
    var data: seq<byte>;
    var f: Option<seq<byte>>;
    if UsesStdin(file) {
      data, f := stdin, None;
    } else {
      if file !in files {
        return Failure(OpenFailed(file));
      }
      data, f := files[file], Some(files[file]);
    }
    if flag == "" {
      var lines, words, chars := ProcessAll(f);
      return Success(Totals(lines, words, chars, file));
    }
    var n := ProcessFlag(data, flag);
    if n.Failure? {
      return Failure(n.error);
    }
    return Success(Count(n.value));
  }
}
