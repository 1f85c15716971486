/** The parts of the C standard library that tinypgm relies on, modelled as
    values: bytes and `fgetc`'s EOF, `isspace` in the "C" locale,
    NUL-terminated strings as read by `strcmp` and `sscanf`, the `%d`
    conversion of `sscanf` and `fprintf`, and files reached through `FILE*`
    handles. */
module LibC {

  type byte = b: int | 0 <= b < 256

  type Path = string

  datatype Option<T> = None | Some(value: T)

  /** What `fgetc` returns at end of file. */
  const EOF: int := -1

  const Nul: byte := 0
  const Newline: byte := 10
  const Space: byte := 32
  const Hash: byte := 35
  const Plus: byte := 43
  const Minus: byte := 45
  const Digit0: byte := 48

  /** `isspace` in the "C" locale: ' ', '\t', '\n', '\v', '\f' and '\r'. */
  predicate IsSpace(c: int) {
    c == Space || 9 <= c <= 13
  }

  predicate IsDigit(c: int) {
    48 <= c <= 57
  }

  // ---------------------------------------------------------------------------
  // NUL-terminated strings

  /** The C string held in a char buffer: everything before the first NUL. */
  function CString(b: seq<byte>): (r: seq<byte>)
    ensures r <= b
    ensures forall i :: 0 <= i < |r| ==> r[i] != Nul
    ensures |r| < |b| ==> b[|r|] == Nul
  {
    if |b| == 0 || b[0] == Nul then [] else [b[0]] + CString(b[1..])
  }

  /** Whatever follows a terminator is invisible to a buffer read as a C string. */
  lemma {:induction false} CStringUpTo(b: seq<byte>, k: nat)
    requires k < |b| && b[k] == Nul
    ensures CString(b) == CString(b[..k])
  {
    if k > 0 && b[0] != Nul {
      assert b[..k][1..] == b[1..][..k - 1];
      CStringUpTo(b[1..], k - 1);
    }
  }

  /** A buffer without NUL bytes is its own C string. */
  lemma {:induction false} CStringNoNul(b: seq<byte>)
    requires forall i :: 0 <= i < |b| ==> b[i] != Nul
    ensures CString(b) == b
  {
    if |b| > 0 {
      CStringNoNul(b[1..]);
    }
  }

  // ---------------------------------------------------------------------------
  // sscanf(str, "%d", &x)

  /** The longest run of decimal digits at the start of `b`. */
  function DigitPrefix(b: seq<byte>): (r: seq<byte>)
    ensures r <= b
    ensures forall i :: 0 <= i < |r| ==> IsDigit(r[i])
    ensures |r| < |b| ==> !IsDigit(b[|r|])
  {
    if |b| == 0 || !IsDigit(b[0]) then [] else [b[0]] + DigitPrefix(b[1..])
  }

  /** The value of a string of decimal digits, most significant first. */
  function DigitsValue(d: seq<byte>): nat
    requires forall i :: 0 <= i < |d| ==> IsDigit(d[i])
  {
    if |d| == 0 then 0
    else
      assert IsDigit(d[|d| - 1]);
      10 * DigitsValue(d[..|d| - 1]) + (d[|d| - 1] - 48)
  }

  /** The number of bytes of an optional leading sign. */
  function SignLength(b: seq<byte>): nat {
    if |b| > 0 && (b[0] == Plus || b[0] == Minus) then 1 else 0
  }

  /** `sscanf(str, "%d", &x) == 1` on a C string that holds no white space:
      an optional sign and at least one decimal digit; the conversion stops
      at the first non-digit and ignores the rest. `None` is a return
      value below 1, in which case `x` is not written. */
  function ScanInt(str: seq<byte>): (r: Option<int>)
    ensures r.Some? <==> SignLength(str) < |str| && IsDigit(str[SignLength(str)])
  {
    var k := SignLength(str);
    var digits := DigitPrefix(str[k..]);
    if |digits| == 0 then None
    else
      var v: int := DigitsValue(digits);
      Some(if k == 1 && str[0] == Minus then -v else v)
  }

  /** Trailing characters after an optionally signed run of digits never
      change what `%d` reads: the value is the digits' value, negated after
      a `-`. */
  lemma ScanIntIgnoresSuffix(sg: seq<byte>, d: seq<byte>, rest: seq<byte>)
    requires sg == [] || sg == [Plus] || sg == [Minus]
    requires |d| > 0 && forall i :: 0 <= i < |d| ==> IsDigit(d[i])
    requires |rest| == 0 || !IsDigit(rest[0])
    ensures var v: int := DigitsValue(d);
      ScanInt(sg + (d + rest)) == Some(if sg == [Minus] then -v else v)
  {
    var t := d + rest;
    var s := sg + t;
    DigitPrefixOf(d, rest);
    if sg == [] {
      assert s == t && t[0..] == t;
    } else {
      assert s[1..] == t;
    }
    ScanIntDigits(s, |sg|, d);
  }

  /** `%d` on a sign of length `k` followed by the digit run `d`. */
  lemma ScanIntDigits(s: seq<byte>, k: nat, d: seq<byte>)
    requires k == SignLength(s) <= |s| && DigitPrefix(s[k..]) == d && |d| > 0
    ensures var v: int := DigitsValue(d);
      ScanInt(s) == Some(if k == 1 && s[0] == Minus then -v else v)
  {
  }

  lemma {:induction false} DigitPrefixOf(d: seq<byte>, rest: seq<byte>)
    requires forall i :: 0 <= i < |d| ==> IsDigit(d[i])
    requires |rest| == 0 || !IsDigit(rest[0])
    ensures DigitPrefix(d + rest) == d
  {
    if |d| > 0 {
      assert (d + rest)[1..] == d[1..] + rest;
      DigitPrefixOf(d[1..], rest);
    } else {
      assert d + rest == rest;
    }
  }

  // ---------------------------------------------------------------------------
  // fprintf(fp, "%d", n) for n >= 0

  /** The decimal text of a natural number, without leading zeros. */
  function FormatInt(n: nat): (r: seq<byte>)
    ensures |r| > 0
    ensures forall i :: 0 <= i < |r| ==> IsDigit(r[i])
    ensures r[0] == Digit0 <==> n == 0
    decreases n
  {
    if n < 10 then [Digit0 + n] else FormatInt(n / 10) + [Digit0 + n % 10]
  }

  /** `%d` reads back what `%d` wrote. */
  lemma {:induction false} FormatIntValue(n: nat)
    ensures DigitsValue(FormatInt(n)) == n
    decreases n
  {
    var r := FormatInt(n);
    if n >= 10 {
      FormatIntValue(n / 10);
      assert r[..|r| - 1] == FormatInt(n / 10);
    }
  }

  lemma ScanFormatInt(n: nat)
    ensures ScanInt(FormatInt(n)) == Some(n)
  {
    FormatIntValue(n);
    ScanIntIgnoresSuffix([], FormatInt(n), []);
    assert [] + (FormatInt(n) + []) == FormatInt(n);
  }

  function Pow10(k: nat): nat {
    if k == 0 then 1 else 10 * Pow10(k - 1)
  }

  /** A number below 10^k takes at most k digits. */
  lemma {:induction false} FormatIntLength(n: nat, k: nat)
    requires 1 <= k && n < Pow10(k)
    ensures |FormatInt(n)| <= k
    decreases k
  {
    if n >= 10 {
      assert k >= 2;
      FormatIntLength(n / 10, k - 1);
    }
  }

  // ---------------------------------------------------------------------------
  // Files

  /** An open `FILE*` for reading: the file's bytes and the stream position. */
  class Stream {
    const bytes: seq<byte>
    var pos: nat

    ghost predicate Valid()
      reads this
    {
      pos <= |bytes|
    }

    constructor Open(contents: seq<byte>)
      ensures Valid() && bytes == contents && pos == 0
    {
      bytes := contents;
      pos := 0;
    }

    /** `fgetc`: the next byte, or EOF without moving at end of file. */
    method GetC() returns (c: int)
      requires Valid()
      modifies this
      ensures Valid()
      ensures old(pos) < |bytes| ==> c == bytes[old(pos)] && pos == old(pos) + 1
      ensures old(pos) == |bytes| ==> c == EOF && pos == old(pos)
    {
      if pos < |bytes| {
        c := bytes[pos];
        pos := pos + 1;
      } else {
        c := EOF;
      }
    }

    /** `fread(dst, 1, n, fp)`: copies up to `n` bytes into `dst[0..]`, as many
        as the file still holds, and returns how many it copied. */
    method Read(dst: array<byte>, n: nat) returns (count: nat)
      requires Valid() && n <= dst.Length
      modifies this, dst
      ensures Valid()
      ensures count == if n <= |bytes| - old(pos) then n else |bytes| - old(pos)
      ensures pos == old(pos) + count
      ensures dst[..count] == bytes[old(pos)..pos]
      ensures dst[count..] == old(dst[count..])
    {
      count := 0;
      while count < n && pos < |bytes|
        invariant Valid() && pos == old(pos) + count && count <= n
        invariant dst[..count] == bytes[old(pos)..pos]
        invariant dst[count..] == old(dst[count..])
      {
        dst[count] := bytes[pos];
        pos := pos + 1;
        count := count + 1;
      }
    }
  }

  /** The files a program can reach by name: reading opens `files[path]`
      and fails for a path that is absent; writing fails for a path
      outside `writable`. */
  class FileSystem {
    var files: map<Path, seq<byte>>
    const writable: set<Path>

    constructor (files: map<Path, seq<byte>>, writable: set<Path>)
      ensures this.files == files && this.writable == writable
    {
      this.files := files;
      this.writable := writable;
    }

    /** `fopen(path, "rb")`: null when the file cannot be opened. */
    method OpenRead(path: Path) returns (fp: Stream?)
      ensures fp != null <==> path in files
      ensures fp != null ==> fresh(fp) && fp.Valid() && fp.bytes == files[path] && fp.pos == 0
    {
      if path in files {
        fp := new Stream.Open(files[path]);
      } else {
        fp := null;
      }
    }
  }
}
