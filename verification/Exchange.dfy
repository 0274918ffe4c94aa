/** The block exchange of software/usb_ir/win32/argp-standalone-1.3/argp-parse.c. */
module Exchange {
  /** The sequence with the segments [bottom, middle) and [middle, top) exchanged. */
  function Exchanged<T>(s: seq<T>, bottom: nat, middle: nat, top: nat): (r: seq<T>)
    requires bottom <= middle <= top <= |s|
    ensures |r| == |s|
  {
    s[..bottom] + s[middle..top] + s[bottom..middle] + s[top..]
  }

  /** Two equally long blocks swapped. */
  function BlocksSwapped<T>(s: seq<T>, i: nat, j: nat, len: nat): (r: seq<T>)
    requires i + len <= j && j + len <= |s|
    ensures |r| == |s|
  {
    s[..i] + s[j..j + len] + s[i + len..j] + s[i..i + len] + s[j + len..]
  }

  /** The inner loops: swaps the blocks of length len at i and j, element by element. */
  method SwapBlocks<T>(argv: array<T>, i: nat, j: nat, len: nat)
    requires i + len <= j && j + len <= argv.Length
    modifies argv
    ensures argv[..] == BlocksSwapped(old(argv[..]), i, j, len)
  {
    for k := 0 to len
      invariant forall m | i <= m < i + k :: argv[m] == old(argv[m - i + j])
      invariant forall m | j <= m < j + k :: argv[m] == old(argv[m - j + i])
      invariant forall m | 0 <= m < argv.Length && !(i <= m < i + k) && !(j <= m < j + k) :: argv[m] == old(argv[m])
    {
      var tem := argv[i + k];
      argv[i + k] := argv[j + k];
      argv[j + k] := tem;
    }
    BlocksSwappedAt(old(argv[..]), i, j, len);
  }

  lemma BlocksSwappedAt<T>(s: seq<T>, i: nat, j: nat, len: nat)
    requires i + len <= j && j + len <= |s|
    ensures forall m | i <= m < i + len :: BlocksSwapped(s, i, j, len)[m] == s[m - i + j]
    ensures forall m | j <= m < j + len :: BlocksSwapped(s, i, j, len)[m] == s[m - j + i]
    ensures forall m | 0 <= m < |s| && !(i <= m < i + len) && !(j <= m < j + len) ::
      BlocksSwapped(s, i, j, len)[m] == s[m]
  {
  }

  /** Moving the short bottom segment past the far end of the top one leaves the rest of
      the exchange to do on a shorter top. */
  lemma BottomShort<T>(s: seq<T>, bottom: nat, len: nat, j: nat)
    requires bottom + len <= j && j + len <= |s|
    ensures Exchanged(BlocksSwapped(s, bottom, j, len), bottom, bottom + len, j)
         == Exchanged(s, bottom, bottom + len, j + len)
  {
    var m, r := bottom + len, BlocksSwapped(s, bottom, j, len);
    assert r[..bottom] == s[..bottom] && r[m..j] == s[m..j] && r[bottom..m] == s[j..j + len];
    assert r[j..] == s[bottom..m] + s[j + len..];
    assert s[m..j] + s[j..j + len] == s[m..j + len];
  }

  /** The same for a top segment that is not longer than the bottom one. */
  lemma TopShort<T>(s: seq<T>, bottom: nat, middle: nat, len: nat)
    requires bottom + len <= middle && middle + len <= |s|
    ensures Exchanged(BlocksSwapped(s, bottom, middle, len), bottom + len, middle, middle + len)
         == Exchanged(s, bottom, middle, middle + len)
  {
    var m, top, r := bottom + len, middle + len, BlocksSwapped(s, bottom, middle, len);
    assert r[..m] == s[..bottom] + s[middle..top] && r[m..middle] == s[m..middle];
    assert r[middle..top] == s[bottom..m] && r[top..] == s[top..];
    assert s[bottom..m] + s[m..middle] == s[bottom..middle];
  }

  /** One turn of the outer loop when the bottom segment is the short one: */
  method RoundBottom<T>(argv: array<T>, bottom: nat, middle: nat, top: nat) returns (top': nat)
    requires bottom < middle < top <= argv.Length && top - middle > middle - bottom
    modifies argv
    ensures middle <= top' < top
    ensures Exchanged(argv[..], bottom, middle, top') == Exchanged(old(argv[..]), bottom, middle, top)
  {
    var len := middle - bottom;
    top' := top - len;
    BottomShort(argv[..], bottom, len, top');
    SwapBlocks(argv, bottom, top', len);
  }

  /** and when the top segment is. */
  method RoundTop<T>(argv: array<T>, bottom: nat, middle: nat, top: nat) returns (bottom': nat)
    requires bottom < middle < top <= argv.Length && top - middle <= middle - bottom
    modifies argv
    ensures bottom < bottom' <= middle
    ensures Exchanged(argv[..], bottom', middle, top) == Exchanged(old(argv[..]), bottom, middle, top)
  {
    bottom' := bottom + (top - middle);
    SwapTop(argv, bottom, middle, top - middle);
  }

  method SwapTop<T>(argv: array<T>, bottom: nat, middle: nat, len: nat)
    requires bottom + len <= middle && middle + len <= argv.Length
    modifies argv
    ensures Exchanged(argv[..], bottom + len, middle, middle + len)
         == Exchanged(old(argv[..]), bottom, middle, middle + len)
  {
    TopShort(argv[..], bottom, middle, len);
    SwapBlocks(argv, bottom, middle, len);
  }

  /** exchange: in place, the two segments trade places, each in its own order, and nothing
      else moves. */
  method ExchangeSegments<T>(argv: array<T>, bottom0: nat, middle: nat, top0: nat)
    requires bottom0 <= middle <= top0 <= argv.Length
    modifies argv
    ensures argv[..] == Exchanged(old(argv[..]), bottom0, middle, top0)
  {
    var bottom: nat, top: nat := bottom0, top0;
    ghost var target := Exchanged(argv[..], bottom, middle, top);
    while top > middle && middle > bottom
      invariant bottom <= middle <= top <= argv.Length
      invariant Exchanged(argv[..], bottom, middle, top) == target
      decreases top - bottom
    {
      if top - middle > middle - bottom {
        top := RoundBottom(argv, bottom, middle, top);
      } else {
        bottom := RoundTop(argv, bottom, middle, top);
      }
    }
    NothingLeft(argv[..], bottom, middle, top);
  }

  lemma NothingLeft<T>(s: seq<T>, bottom: nat, middle: nat, top: nat)
    requires bottom <= middle <= top <= |s| && (bottom == middle || middle == top)
    ensures Exchanged(s, bottom, middle, top) == s
  {
  }

  lemma ExchangedIsPermutation<T>(s: seq<T>, bottom: nat, middle: nat, top: nat)
    requires bottom <= middle <= top <= |s|
    ensures multiset(Exchanged(s, bottom, middle, top)) == multiset(s)
  {
    assert s == s[..bottom] + s[bottom..middle] + s[middle..top] + s[top..];
  }
}
