/** Shared vocabulary of the FAT32 image tool: bytes, 16-bit name units,
    the errors the engine raises, and Python's clamping slice operations. */
module Common {

  newtype byte = x: int | 0 <= x < 0x100

  /** One UTF-16 code unit; long names are sequences of these. */
  newtype Unit = x: int | 0 <= x < 0x1_0000

  type Name = seq<Unit>

  /** The exceptions of reader.py and fix.py, plus the points where the
      Python code would run past the image or never return. */
  datatype Error =
    | BrokenLayout          // BrokenFATError while reading the boot sector
    | PermissionDenied      // write attempted on an image opened read-only
    | FileExists(name: Name)
    | NotADirectory(name: Name)
    | FreeSpace             // no free FAT entry left
    | IndexError            // a Python index past the end of a byte string or list
    | ValueError            // bytes([k]) with k > 255
    | DecodeError           // a long name that is not valid UTF-16
    | EncodeError           // a name with an unpaired surrogate
    | NameError             // an unbound or undefined name
    | AttributeError        // a method the object does not have
    | OutsideFat            // a FAT entry read or written outside the FAT area
    | OutOfImage            // a cluster access past the end of the image
    | BelowData             // a cluster index 0 or 1 used as a data cluster
    | Diverges              // Python loops forever from here
    | TooDeep               // the recursion depth bound is exhausted
    | ZeroDivisionError     // hexdump.py's build with a row length of 0

  datatype Result<T> = Ok(value: T) | Fail(error: Error) {
    predicate IsFailure() { Fail? }
    function PropagateFailure<U>(): Result<U>
      requires Fail?
    {
      Fail(error)
    }
    function Extract(): T
      requires Ok?
    {
      value
    }
  }

  datatype Option<T> = None | Some(value: T)

  datatype Outcome = Done | Failed(error: Error) {
    predicate IsFailure() { Failed? }
    function PropagateFailure(): Outcome
      requires Failed?
    {
      this
    }
  }

  function Min(a: int, b: int): int { if a <= b then a else b }

  lemma MulAtLeast(c: int, k: int)
    requires c > 0 && k >= 1
    ensures c * k >= c
  {
    assert c * k == c + c * (k - 1);
    assert c * (k - 1) >= 0;
  }

  /** Euclidean division is determined by a quotient and a remainder. */
  lemma DivUnique(n: int, c: int, q: int, r: int)
    requires c > 0 && 0 <= r < c && n == c * q + r
    ensures n / c == q && n % c == r
  {
    var q0, r0 := n / c, n % c;
    if q > q0 {
      MulAtLeast(c, q - q0);
      assert false;
    } else if q < q0 {
      MulAtLeast(c, q0 - q);
      assert false;
    }
  }

  /** Python's s[:n] for n >= 0. */
  function Take<T>(s: seq<T>, n: nat): (r: seq<T>)
    ensures |r| == Min(n, |s|)
    ensures r == s[..Min(n, |s|)]
  {
    if n <= |s| then s[..n] else s
  }

  /** Python's s[n:] for n >= 0. */
  function Drop<T>(s: seq<T>, n: nat): (r: seq<T>)
    ensures |r| == |s| - Min(n, |s|)
    ensures r == s[Min(n, |s|)..]
  {
    if n <= |s| then s[n..] else []
  }

  /** Python's s[a:b] for 0 <= a, b. */
  function Slice<T>(s: seq<T>, a: nat, b: nat): (r: seq<T>)
    ensures |r| == if Min(b, |s|) <= a then 0 else Min(b, |s|) - a
  {
    Drop(Take(s, b), a)
  }

  /** s with the bytes from off on replaced by d, d lying inside s. */
  function Splice<T>(s: seq<T>, off: nat, d: seq<T>): (r: seq<T>)
    requires off + |d| <= |s|
    ensures |r| == |s|
    ensures forall i :: 0 <= i < |s| ==> r[i] == if off <= i < off + |d| then d[i - off] else s[i]
  {
    s[..off] + d + s[off + |d|..]
  }

  function Zeros(n: nat): (r: seq<byte>)
    ensures |r| == n && forall i :: 0 <= i < n ==> r[i] == 0
  {
    seq(n, _ => 0)
  }

  /** An ASCII literal as code units (for names such as "LOSTFOUND"). */
  function U(s: string): (r: Name)
    ensures |r| == |s|
  {
    seq(|s|, i requires 0 <= i < |s| => ((s[i] as int) % 0x1_0000) as Unit)
  }
}
