/** Splitting an extent in two, and exactly when the assembled file stays the same. */
module Refragment {
  import opened Words
  import opened Bytes
  import opened Extent
  import opened Assemble

  function FirstPart(r: BmbtRec, k: nat): BmbtRec
    requires k <= r.blockcount
  {
    BmbtRec(r.startoff, r.startblock, k, r.unwritten)
  }

  function SecondPart(r: BmbtRec, k: nat): BmbtRec
    requires k <= r.blockcount && Packable(r)
  {
    BmbtRec(r.startoff + k, r.startblock + k, r.blockcount - k, r.unwritten)
  }

  /** The window of an extent divides where the extent does. */
  lemma SplitWindow(r: BmbtRec, k: nat, bs: nat, size: nat)
    requires Packable(r) && k <= r.blockcount
    ensures var w := WindowOf(r, bs, size);
      var w1, w2 := WindowOf(FirstPart(r, k), bs, size), WindowOf(SecondPart(r, k), bs, size);
      var cut := w.dst + k * bs;
      && w.dst <= cut
      && w1 == Window(w.dst, Min(cut, size), w.src)
      && w2 == Window(cut, w.end, w.src + k * bs)
      && (cut <= w.end || w.end == size)
  {
    MulDistributes(r.startoff, k, bs);
    MulDistributes(r.startblock, k, bs);
    MulDistributes(k, r.blockcount - k, bs);
    MulNonNegative(k, bs);
    MulNonNegative(r.blockcount - k, bs);
  }

  lemma {:induction false} SplitPreservesByte(image: seq<byte>, pre: seq<Window>, w: Window, w1: Window, w2: Window,
                                              post: seq<Window>, i: nat)
    requires forall j :: Writes(w, |image|, j) ==> Writes(w1, |image|, j) || Writes(w2, |image|, j)
    requires forall j :: Writes(w1, |image|, j) || Writes(w2, |image|, j) ==> Writes(w, |image|, j)
    requires w1.src - w1.dst == w.src - w.dst == w2.src - w2.dst
    ensures ByteAt(image, pre + [w] + post, i) == ByteAt(image, pre + [w1, w2] + post, i)
    decreases |post|
  {
    var whole, split := pre + [w] + post, pre + [w1, w2] + post;
    if post == [] {
      assert whole[..|whole| - 1] == pre;
      assert split[..|split| - 1] == pre + [w1];
      assert split[..|split| - 1][..|split| - 2] == pre;
    } else {
      var init := post[..|post| - 1];
      SplitPreservesByte(image, pre, w, w1, w2, init, i);
      assert whole[..|whole| - 1] == pre + [w] + init;
      assert split[..|split| - 1] == pre + [w1, w2] + init;
    }
  }

  lemma WindowsAround(pre: seq<BmbtRec>, mid: seq<BmbtRec>, post: seq<BmbtRec>, bs: nat, size: nat)
    requires 1 <= |mid| <= 2
    ensures Windows(pre + mid + post, bs, size) == Windows(pre, bs, size)
      + (if |mid| == 1 then [WindowOf(mid[0], bs, size)]
         else [WindowOf(mid[0], bs, size), WindowOf(mid[1], bs, size)])
      + Windows(post, bs, size)
  {}

  function Whole(pre: seq<BmbtRec>, r: BmbtRec, post: seq<BmbtRec>): seq<BmbtRec> {
    pre + [r] + post
  }

  function Split(pre: seq<BmbtRec>, r: BmbtRec, k: nat, post: seq<BmbtRec>): seq<BmbtRec>
    requires Packable(r) && k <= r.blockcount
  {
    pre + [FirstPart(r, k), SecondPart(r, k)] + post
  }

  /**
   The extent is placed, or neither part is. The extent is not placed when it starts
   past the end of the file, is empty, or runs out of the image.
   */
  predicate Splits(r: BmbtRec, k: nat, bs: nat, size: nat, len: nat)
    requires Packable(r) && k <= r.blockcount
  {
    Readable(WindowOf(r, bs, size), len) ||
    (!Readable(WindowOf(FirstPart(r, k), bs, size), len) && !Readable(WindowOf(SecondPart(r, k), bs, size), len))
  }

  /** Anywhere in any extent list, such a split leaves the file unchanged. */
  lemma SplitPreservesFile(image: seq<byte>, bs: nat, pre: seq<BmbtRec>, r: BmbtRec, k: nat,
                           post: seq<BmbtRec>, size: nat)
    requires Packable(r) && k <= r.blockcount && Splits(r, k, bs, size, |image|)
    ensures Assembled(image, bs, Whole(pre, r, post), size) == Assembled(image, bs, Split(pre, r, k, post), size)
  {
    var whole, split := Whole(pre, r, post), Split(pre, r, k, post);
    var w := WindowOf(r, bs, size);
    var w1, w2 := WindowOf(FirstPart(r, k), bs, size), WindowOf(SecondPart(r, k), bs, size);
    SplitWindow(r, k, bs, size);
    WindowsAround(pre, [r], post, bs, size);
    WindowsAround(pre, [FirstPart(r, k), SecondPart(r, k)], post, bs, size);
    forall i: nat ensures FileByte(image, bs, whole, size, i) == FileByte(image, bs, split, size, i) {
      SplitPreservesByte(image, Windows(pre, bs, size), w, w1, w2, Windows(post, bs, size), i);
    }
    if size <= |image| {
      assert Assembled(image, bs, whole, size).value == Assembled(image, bs, split, size).value;
    }
  }

  /** Any other split shows: in an image of ones the extent alone gives a zero where its readable part gives a one. */
  lemma OtherSplitShows(bs: nat, r: BmbtRec, k: nat, size: nat, len: nat) returns (image: seq<byte>)
    requires Packable(r) && k <= r.blockcount && !Splits(r, k, bs, size, len) && size <= len
    ensures |image| == len && Assembled(image, bs, Whole([], r, []), size) != Assembled(image, bs, Split([], r, k, []), size)
  {
    image := seq(len, _ => 1);
    var first, second := FirstPart(r, k), SecondPart(r, k);
    var w1, w2 := WindowOf(first, bs, size), WindowOf(second, bs, size);
    var i := if Readable(w1, len) then w1.dst else w2.dst;
    HoleIsZero(image, Windows([r], bs, size), i);
    PartsGiveOne(image, w1, w2, i);
    assert Windows([first, second], bs, size) == [w1, w2];
    assert Whole([], r, []) == [r] && Split([], r, k, []) == [first, second];
    assert Assembled(image, bs, [r], size).value[i] != Assembled(image, bs, [first, second], size).value[i];
  }

  lemma PartsGiveOne(image: seq<byte>, w1: Window, w2: Window, i: nat)
    requires Writes(w1, |image|, i) || Writes(w2, |image|, i)
    requires forall j :: 0 <= j < |image| ==> image[j] == 1
    ensures ByteAt(image, [w1, w2], i) == 1
  {
    LastWriterWins(image, [w1, w2], i, if Writes(w2, |image|, i) then 1 else 0);
  }

  ghost predicate Harmless(r: BmbtRec, k: nat, bs: nat, size: nat, len: nat)
    requires Packable(r) && k <= r.blockcount
  {
    forall image: seq<byte>, pre, post :: |image| == len ==>
      Assembled(image, bs, Whole(pre, r, post), size) == Assembled(image, bs, Split(pre, r, k, post), size)
  }

  /**
   Refragmenting, exactly: a split leaves the file unchanged in every image of a given
   length and among any other extents if and only if the extent's clipped window is
   readable or neither part's is. (A size beyond the image is refused either way.)
   */
  lemma HarmlessIff(r: BmbtRec, k: nat, bs: nat, size: nat, len: nat)
    requires Packable(r) && k <= r.blockcount && size <= len
    ensures Harmless(r, k, bs, size, len) <==> Splits(r, k, bs, size, len)
  {
    if Splits(r, k, bs, size, len) {
      forall image: seq<byte>, pre, post | |image| == len
        ensures Assembled(image, bs, Whole(pre, r, post), size) == Assembled(image, bs, Split(pre, r, k, post), size)
      {
        SplitPreservesFile(image, bs, pre, r, k, post, size);
      }
    } else {
      var image := OtherSplitShows(bs, r, k, size, len);
    }
  }

  /** In particular an extent in the image, past the end of the file or not, may be split at any block. */
  lemma InImageSplitIsHarmless(r: BmbtRec, k: nat, bs: nat, size: nat, len: nat)
    requires Packable(r) && k <= r.blockcount && InImage(r, bs, len)
    ensures Harmless(r, k, bs, size, len)
  {
    InImageSplits(r, k, bs, size, len);
    forall image: seq<byte>, pre, post | |image| == len
      ensures Assembled(image, bs, Whole(pre, r, post), size) == Assembled(image, bs, Split(pre, r, k, post), size)
    {
      SplitPreservesFile(image, bs, pre, r, k, post, size);
    }
  }

  lemma InImageSplits(r: BmbtRec, k: nat, bs: nat, size: nat, len: nat)
    requires Packable(r) && k <= r.blockcount && InImage(r, bs, len)
    ensures Splits(r, k, bs, size, len)
  {
    InImageReadable(r, bs, size, len);
    SplitWindow(r, k, bs, size);
    MulMono(k, r.blockcount, bs);
  }

  /** An extent that runs out of the image is dropped whole; split, its readable part appears. */
  lemma UnreadableSplitDiffers()
    ensures var r := BmbtRec(0, 1, 2, false);
      && Packable(r) && !Splits(r, 1, 1, 2, 2)
      && FileByte([7, 9], 1, [r], 2, 0) == 0
      && FileByte([7, 9], 1, [FirstPart(r, 1), SecondPart(r, 1)], 2, 0) == 9
  {
    var r := BmbtRec(0, 1, 2, false);
    HoleIsZero([7, 9], Windows([r], 1, 2), 0);
    LastWriterWins([7, 9], Windows([FirstPart(r, 1), SecondPart(r, 1)], 1, 2), 0, 0);
  }
}
