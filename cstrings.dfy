/** C character strings as the attendance programs use them: a fixed
    buffer of `char`s whose logical content ends at the first NUL. */
module CStrings {

  /** One C `char`: a byte, kept as a Dafny `char` below 256 so that
      identifiers read from a binary file can be written into text. */
  type CChar = c: char | c as int < 256

  const NUL: CChar := '\0'

  function Min(a: int, b: int): int
  {
    if a <= b then a else b
  }

  /** `n` NUL bytes. */
  function Nuls(n: nat): (r: seq<CChar>)
    ensures |r| == n
    ensures forall i :: 0 <= i < n ==> r[i] == NUL
  {
    seq(n, i => NUL)
  }

  /** `strlen` on a buffer: the index of the first NUL, or the whole
      buffer when it holds none. */
  function Strlen(s: seq<char>): (n: nat)
    ensures n <= |s|
    ensures forall i :: 0 <= i < n ==> s[i] != NUL
    ensures n < |s| ==> s[n] == NUL
  {
    if |s| == 0 || s[0] == NUL then 0 else 1 + Strlen(s[1..])
  }

  /** The C string held by a buffer (what `c_str()`-based code or
      `operator<<` on a `char[]` sees): the bytes before the first NUL. */
  function CStr(s: seq<char>): (r: seq<char>)
    ensures r <= s
    ensures NUL !in r
    ensures |r| < |s| ==> s[|r|] == NUL
  {
    s[..Strlen(s)]
  }

  /** A buffer holds a terminator: `strlen` stops inside it. */
  predicate Terminated(s: seq<char>)
  {
    NUL in s
  }

  /** The two facts in Strlen's contract pin its value down. */
  lemma StrlenUnique(s: seq<char>, k: nat)
    requires k <= |s|
    requires forall i :: 0 <= i < k ==> s[i] != NUL
    requires k < |s| ==> s[k] == NUL
    ensures Strlen(s) == k
  {
  }

  lemma StrlenOfNulFree(s: seq<char>)
    requires NUL !in s
    ensures Strlen(s) == |s| && CStr(s) == s
  {
    StrlenUnique(s, |s|);
  }

  lemma TerminatedIffShort(s: seq<char>)
    ensures Terminated(s) <==> Strlen(s) < |s|
  {
    if Terminated(s) {
      var i :| 0 <= i < |s| && s[i] == NUL;
      assert Strlen(s) <= i;
    }
  }

  /** `strncpy(dst, src.c_str(), n)`: copies the C string of `src` up to
      `n` bytes and pads the rest of the `n` bytes with NULs. */
  function Strncpy(src: seq<CChar>, n: nat): (dst: seq<CChar>)
    ensures |dst| == n
    ensures forall i :: 0 <= i < Min(Strlen(src), n) ==> dst[i] == src[i]
    ensures forall i :: Min(Strlen(src), n) <= i < n ==> dst[i] == NUL
  {
    var k := Min(Strlen(src), n);
    src[..k] + Nuls(n - k)
  }
}
