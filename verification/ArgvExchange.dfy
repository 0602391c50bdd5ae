/** The in-place exchange of two adjacent blocks of an array. */
module ArgvExchange {

  /** The sequence with its blocks [bottom, middle) and [middle, top) exchanged. */
  function Exchanged<T>(s: seq<T>, bottom: nat, middle: nat, top: nat): (r: seq<T>)
    requires bottom <= middle <= top <= |s|
    ensures |r| == |s|
  {
    s[..bottom] + s[middle..top] + s[bottom..middle] + s[top..]
  }

  /** Where the element at k comes from when blocks of length n at p and q swap. */
  function Partner(k: nat, p: nat, q: nat, n: nat): nat
    requires p + n <= q
  {
    if p <= k < p + n then k + (q - p) else if q <= k < q + n then k - (q - p) else k
  }

  function Swapped<T>(s: seq<T>, p: nat, q: nat, n: nat): (r: seq<T>)
    requires p + n <= q && q + n <= |s|
    ensures |r| == |s|
  {
    seq(|s|, k requires 0 <= k < |s| => s[Partner(k, p, q, n)])
  }

  /** Swapping a shorter bottom block with the far end of the top block leaves the
      rest of the exchange to be done below it. */
  lemma SwapBottom<T>(s: seq<T>, bottom: nat, middle: nat, top: nat)
    requires bottom <= middle <= top <= |s| && middle - bottom <= top - middle
    ensures var n := middle - bottom;
            Exchanged(Swapped(s, bottom, top - n, n), bottom, middle, top - n) == Exchanged(s, bottom, middle, top)
  {
    hide Swapped, Exchanged;
    var n := middle - bottom;
    var r := Swapped(s, bottom, top - n, n);
    SwappedParts(s, bottom, top - n, n);
    Join(s, middle, top - n, top);
    Join(r, top - n, top, |s|);
    var a, x, m, y, z := s[..bottom], s[bottom..middle], s[middle..top - n], s[top - n..top], s[top..];
    ExchangedParts(s, bottom, middle, top, a, x, m + y, z);
    ExchangedParts(r, bottom, middle, top - n, a, y, m, x + z);
    Associate(a, m, y, x, z);
  }

  lemma ExchangedParts<T>(s: seq<T>, bottom: nat, middle: nat, top: nat, a: seq<T>, b: seq<T>, c: seq<T>, d: seq<T>)
    requires bottom <= middle <= top <= |s|
    requires a == s[..bottom] && b == s[bottom..middle] && c == s[middle..top] && d == s[top..]
    ensures Exchanged(s, bottom, middle, top) == a + c + b + d
  {
  }

  lemma Associate<T>(a: seq<T>, b: seq<T>, c: seq<T>, d: seq<T>, e: seq<T>)
    ensures a + b + c + (d + e) == a + (b + c) + d + e
    ensures (a + b) + c + d + e == a + b + (c + d) + e
  {
  }

  /** Swapping a shorter top block with the near end of the bottom block. */
  lemma SwapTop<T>(s: seq<T>, bottom: nat, middle: nat, top: nat)
    requires bottom <= middle <= top <= |s| && top - middle <= middle - bottom
    ensures var n := top - middle;
            Exchanged(Swapped(s, bottom, middle, n), bottom + n, middle, top) == Exchanged(s, bottom, middle, top)
  {
    hide Swapped, Exchanged;
    var n := top - middle;
    var r := Swapped(s, bottom, middle, n);
    SwappedParts(s, bottom, middle, n);
    Join(s, bottom, bottom + n, middle);
    Join(r, bottom, bottom + n, |s|);
    var a, x, m, y, z := s[..bottom], s[bottom..bottom + n], s[bottom + n..middle], s[middle..top], s[top..];
    ExchangedParts(s, bottom, middle, top, a, x + m, y, z);
    ExchangedParts(r, bottom + n, middle, top, a + y, m, x, z);
    Associate(a, y, x, m, z);
  }

  lemma NothingToExchange<T>(s: seq<T>, bottom: nat, middle: nat, top: nat)
    requires bottom <= middle <= top <= |s| && (top == middle || middle == bottom)
    ensures Exchanged(s, bottom, middle, top) == s
  {
  }

  /** The swap loops. */
  method SwapBlocks<T>(argv: array<T>, p: nat, q: nat, n: nat)
    requires p + n <= q && q + n <= argv.Length
    modifies argv
    ensures argv[..] == Swapped(old(argv[..]), p, q, n)
  {
    for i := 0 to n
      invariant forall k :: 0 <= k < argv.Length ==> argv[k] == old(argv[..])[Partner(k, p, q, i)]
    {
      var tem := argv[p + i];
      argv[p + i] := argv[q + i];
      argv[q + i] := tem;
    }
  }

  /** The five parts of a swapped sequence. */
  lemma SwappedParts<T>(s: seq<T>, p: nat, q: nat, n: nat)
    requires p + n <= q && q + n <= |s|
    ensures var r := Swapped(s, p, q, n);
            r[..p] == s[..p] && r[p..p + n] == s[q..q + n] && r[p + n..q] == s[p + n..q]
            && r[q..q + n] == s[p..p + n] && r[q + n..] == s[q + n..]
  {
  }

  lemma Join<T>(s: seq<T>, a: nat, b: nat, c: nat)
    requires a <= b <= c <= |s|
    ensures s[a..b] + s[b..c] == s[a..c] && s[..a] + s[a..b] == s[..b] && s[a..b] + s[b..] == s[a..]
  {
  }

  /** Moves the options behind the skipped non-options in front of them. */
  method Exchange<T>(argv: array<T>, first: nat, last: nat, optind: nat)
    requires first <= last <= optind <= argv.Length
    modifies argv
    ensures argv[..] == Exchanged(old(argv[..]), first, last, optind)
  {
    hide Exchanged, Swapped;
    var bottom, middle, top := first, last, optind;
    while top > middle && middle > bottom
      invariant first <= bottom <= middle <= top <= optind
      invariant Exchanged(argv[..], bottom, middle, top) == Exchanged(old(argv[..]), first, last, optind)
      decreases top - bottom
    {
      if top - middle > middle - bottom {
        var len := middle - bottom;
        SwapBottom(argv[..], bottom, middle, top);
        SwapBlocks(argv, bottom, top - (middle - bottom), len);
        top := top - len;
      } else {
        var len := top - middle;
        SwapTop(argv[..], bottom, middle, top);
        SwapBlocks(argv, bottom, middle, len);
        bottom := bottom + len;
      }
    }
    NothingToExchange(argv[..], bottom, middle, top);
  }
}
