/** What every module shares: bytes, 32-bit words and how they lie in memory. */
module Basics {

  type byte = b: int | 0 <= b < 256

  const U32: nat := 0x1_0000_0000

  datatype Option<T> = None | Some(value: T)

  function Without<T>(s: seq<T>, i: nat): seq<T>
    requires i < |s|
  {
    s[..i] + s[i + 1..]
  }

  ghost predicate Distinct<T>(s: seq<T>) { forall i, j :: 0 <= i < j < |s| ==> s[i] != s[j] }

  /** At most the first n. */
  function Cut<T>(s: seq<T>, n: nat): seq<T> { if |s| > n then s[..n] else s }

  /** 32-bit unsigned addition. */
  function Add32(a: int, b: int): (r: nat)
    ensures 0 <= a + b < U32 ==> r == a + b
  {
    (a + b) % U32
  }

  method PutWord(buf: array<byte>, at: nat, n: nat)
    requires at + 4 <= buf.Length
    modifies buf
    ensures buf[at..at + 4] == WordBytes(n)
    ensures forall k :: 0 <= k < buf.Length && !(at <= k < at + 4) ==> buf[k] == old(buf[k])
  {
    var b := WordBytes(n);
    buf[at], buf[at + 1], buf[at + 2], buf[at + 3] := b[0], b[1], b[2], b[3];
  }

  /** A word as it lies in memory, low byte first. */
  function WordBytes(n: nat): (b: seq<byte>)
    ensures |b| == 4
  {
    [n % 256, n / 256 % 256, n / 256 / 256 % 256, n / 256 / 256 / 256 % 256]
  }

  function FromWord(b0: byte, b1: byte, b2: byte, b3: byte): nat {
    b0 as int + 256 * b1 as int + 0x1_0000 * b2 as int + 0x100_0000 * b3 as int
  }

  lemma WordBack(n: nat)
    requires n < U32
    ensures var b := WordBytes(n); FromWord(b[0], b[1], b[2], b[3]) == n
  {
  }
}
