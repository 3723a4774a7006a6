/** The in-place exchange of two adjacent blocks of argv. */
module GetoptExchange {

  /** `s` with the blocks of length `len` at `p` and at `q` swapped. */
  ghost function Swapped<T>(s: seq<T>, p: nat, q: nat, len: nat): (t: seq<T>)
    requires p + len <= q && q + len <= |s|
    ensures |t| == |s|
  {
    seq(|s|, i requires 0 <= i < |s| =>
      if p <= i < p + len then s[i - p + q] else if q <= i < q + len then s[i - q + p] else s[i])
  }

  method SwapBlocks<T>(a: array<T>, p: nat, q: nat, len: nat)
    requires p + len <= q && q + len <= a.Length
    modifies a
    ensures a[..] == Swapped(old(a[..]), p, q, len)
  {
    for k := 0 to len
      invariant a[..] == Swapped(old(a[..]), p, q, k)
    {
      var tem := a[p + k];
      a[p + k] := a[q + k];
      a[q + k] := tem;
    }
  }

  /** `s` with its blocks [bottom, middle) and [middle, top) exchanged. */
  ghost function Exchanged<T>(s: seq<T>, bottom: nat, middle: nat, top: nat): seq<T>
    requires bottom <= middle <= top <= |s|
  {
    s[..bottom] + s[middle..top] + s[bottom..middle] + s[top..]
  }

  lemma SwappedParts<T>(s: seq<T>, p: nat, q: nat, len: nat)
    requires p + len <= q && q + len <= |s|
    ensures var t := Swapped(s, p, q, len);
            && t[..p] == s[..p] && t[p..p + len] == s[q..q + len] && t[p + len..q] == s[p + len..q]
            && t[q..q + len] == s[p..p + len] && t[q + len..] == s[q + len..]
  {
  }

  /** Swapping the shorter bottom block with the end of the top block puts it in its place. */
  lemma BottomShorter<T>(s: seq<T>, bottom: nat, middle: nat, top: nat)
    requires bottom < middle < top <= |s| && middle - bottom < top - middle
    ensures var len := middle - bottom;
            Exchanged(Swapped(s, bottom, top - len, len), bottom, middle, top - len)
            == Exchanged(s, bottom, middle, top)
  {
    hide Swapped;
    var len := middle - bottom;
    var t := Swapped(s, bottom, top - len, len);
    SwappedParts(s, bottom, top - len, len);
    assert t[top - len..] == t[top - len..top] + t[top..];
    assert s[middle..top] == s[middle..top - len] + s[top - len..top];
    Regroup(s[..bottom], s[middle..top - len], s[top - len..top], s[bottom..middle], s[top..]);
  }

  lemma Regroup<T>(u: seq<T>, v: seq<T>, w: seq<T>, x: seq<T>, y: seq<T>)
    ensures u + v + w + (x + y) == u + (v + w) + x + y
  {
  }

  lemma NothingLeft<T>(s: seq<T>, bottom: nat, middle: nat, top: nat)
    requires bottom <= middle <= top <= |s| && (bottom == middle || middle == top)
    ensures Exchanged(s, bottom, middle, top) == s
  {
  }

  /** Swapping the shorter top block with the start of the bottom block puts it in its place. */
  lemma TopShorter<T>(s: seq<T>, bottom: nat, middle: nat, top: nat)
    requires bottom < middle < top <= |s| && top - middle <= middle - bottom
    ensures var len := top - middle;
            Exchanged(Swapped(s, bottom, middle, len), bottom + len, middle, top) == Exchanged(s, bottom, middle, top)
  {
    hide Swapped;
    var len := top - middle;
    var t := Swapped(s, bottom, middle, len);
    SwappedParts(s, bottom, middle, len);
    assert t[..bottom + len] == s[..bottom] + s[middle..top];
    assert s[bottom..middle] == s[bottom..bottom + len] + s[bottom + len..middle];
  }

  /** Exchanges the two blocks by repeatedly swapping the shorter one into place. */
  method Exchange<T>(argv: array<T>, first: nat, last: nat, optind: nat)
    requires first <= last <= optind <= argv.Length
    modifies argv
    ensures argv[..] == Exchanged(old(argv[..]), first, last, optind)
  {
    hide Swapped, Exchanged;
    var bottom: nat, middle: nat, top: nat := first, last, optind;
    while top > middle && middle > bottom
      invariant bottom <= middle <= top <= argv.Length
      invariant Exchanged(argv[..], bottom, middle, top) == Exchanged(old(argv[..]), first, last, optind)
      decreases top - bottom
    {
      if top - middle > middle - bottom {
        var len := middle - bottom;
        BottomShorter(argv[..], bottom, middle, top);
        SwapBlocks(argv, bottom, top - len, len);
        top := top - len;
      } else {
        var len := top - middle;
        TopShorter(argv[..], bottom, middle, top);
        SwapBlocks(argv, bottom, middle, len);
        bottom := bottom + len;
      }
    }
    NothingLeft(argv[..], bottom, middle, top);
  }
}
