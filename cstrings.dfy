/** C string handling that the test registry relies on: the view of a char
    buffer as a NUL-terminated string (what `strcmp` and `printf("%s")` read),
    the bounded copy macro `STRCPY`, and the decimal rendering of `%d`. */
module CStrings {

  const Nul: char := '\0'

  function Min(a: int, b: int): int
  {
    if a < b then a else b
  }

  /** The C string held in `s`: the characters before the first NUL, or all of
      `s` when it holds no NUL. */
  function CString(s: seq<char>): (r: string)
    ensures r <= s
    ensures Nul !in r
    ensures |r| < |s| ==> s[|r|] == Nul
  {
    if s == [] || s[0] == Nul then [] else [s[0]] + CString(s[1..])
  }

  /** The three properties of `CString` determine it: any prefix without a NUL
      that stops at a NUL or at the end is the C string. */
  lemma CStringUnique(s: seq<char>, t: string)
    requires t <= s && Nul !in t && (|t| < |s| ==> s[|t|] == Nul)
    ensures t == CString(s)
  {
  }

  /** A buffer whose cell `k` holds a NUL holds a C string of at most `k` characters. */
  lemma CStringBound(s: seq<char>, k: nat)
    requires k < |s| && s[k] == Nul
    ensures |CString(s)| <= k
  {
  }

  /** What `strncpy(to, from, size)` leaves in a buffer of `size` chars: the C
      string of `from`, cut off after `size` characters, padded with NULs. */
  function Strncpy(from: seq<char>, size: nat): (buf: seq<char>)
    ensures |buf| == size
    ensures CString(from)[..Min(|CString(from)|, size)] <= buf
    ensures forall i :: 0 <= i < size ==> (buf[i] == Nul <==> i >= |CString(from)|)
  {
    var c := CString(from);
    seq(size, i requires 0 <= i < size => if i < |c| then c[i] else Nul)
  }

  /** What the `STRCPY(TO, FROM)` macro leaves in `TO`: `strncpy` over the whole
      buffer, then a NUL written into its last cell. */
  function StrCpyBuffer(from: seq<char>, size: nat): (buf: seq<char>)
    requires size > 0
    ensures |buf| == size && buf[size - 1] == Nul
  {
    Strncpy(from, size)[size - 1 := Nul]
  }

  /** `STRCPY` truncates silently: the buffer then holds the longest prefix of
      the source string that fits in `size - 1` characters. */
  lemma StrCpyTruncates(from: seq<char>, size: nat)
    requires size > 0
    ensures CString(StrCpyBuffer(from, size)) == CString(from)[..Min(|CString(from)|, size - 1)]
    ensures |CString(StrCpyBuffer(from, size))| <= size - 1
    ensures CString(StrCpyBuffer(from, size)) <= CString(from)
  {
    var c := CString(from);
    var buf := StrCpyBuffer(from, size);
    var t := c[..Min(|c|, size - 1)];
    assert t <= buf by {
      forall i | 0 <= i < |t| ensures t[i] == buf[i] {
        assert i < size - 1;
      }
    }
    assert Nul !in t by {
      assert forall i :: 0 <= i < |t| ==> t[i] == c[i];
    }
    if |t| < |buf| {
      if |t| < size - 1 {
        assert |t| == |c|;
      }
      assert buf[|t|] == Nul;
    }
    CStringUnique(buf, t);
  }

  /** For a source string without a NUL, as C string literals are, the stored
      string is `from[..min(|from|, size - 1)]`. */
  lemma StrCpyTruncatesPlain(from: string, size: nat)
    requires size > 0 && Nul !in from
    ensures CString(StrCpyBuffer(from, size)) == from[..Min(|from|, size - 1)]
  {
    CStringUnique(from, from);
    StrCpyTruncates(from, size);
  }

  /** `STRCPY(to, from)` on a buffer of `to.Length` chars. */
  method StrCpy(to: array<char>, from: seq<char>)
    requires to.Length > 0
    modifies to
    ensures to[..] == StrCpyBuffer(from, to.Length)
  {
    var c := CString(from);
    forall i | 0 <= i < to.Length {
      to[i] := if i < |c| then c[i] else Nul;
    }
    to[to.Length - 1] := Nul;
  }

  function DigitChar(d: nat): char
    requires d < 10
  {
    ('0' as int + d) as char
  }

  predicate IsDigits(s: string)
  {
    forall i :: 0 <= i < |s| ==> '0' <= s[i] <= '9'
  }

  /** `%d` of a non-negative `int`: decimal digits, most significant first,
      without leading zeros. */
  function Decimal(n: nat): (s: string)
    ensures |s| >= 1 && IsDigits(s)
    ensures s[0] == '0' ==> n == 0
  {
    if n < 10 then [DigitChar(n)] else Decimal(n / 10) + [DigitChar(n % 10)]
  }

  /** The number a string of decimal digits denotes. */
  function DecimalValue(s: string): nat
    requires IsDigits(s)
  {
    if s == [] then 0
    else DecimalValue(s[..|s| - 1]) * 10 + (s[|s| - 1] as int - '0' as int)
  }

  /** Reading back what `%d` printed gives the number. */
  lemma {:induction false} DecimalRoundTrip(n: nat)
    ensures DecimalValue(Decimal(n)) == n
  {
    if n >= 10 {
      var s := Decimal(n);
      assert s[..|s| - 1] == Decimal(n / 10);
      DecimalRoundTrip(n / 10);
    }
  }
}
