/**
  Multi-file images: the documented layout, and the three places that compute
  offsets in it (`do_imgextract`, `do_bootm`, `do_bootm_linux`).
 */
module MultiImage {
  import opened Common

  // ---- the documented layout ----

  /** A number as four bytes in network order. */
  function Be32(n: nat): (r: seq<Byte>)
    ensures |r| == 4
  {
    [n / 0x100_0000 % 256, n / 0x1_0000 % 256, n / 0x100 % 256, n % 256]
  }

  /** The most significant byte comes first. */
  lemma NetworkOrder()
    ensures Be32(0x0102_0304) == [1, 2, 3, 4]
  {
  }

  function Table(images: seq<seq<Byte>>): (r: seq<Byte>)
    ensures |r| == 4 * |images|
  {
    if images == [] then [] else Be32(|images[0]|) + Table(images[1..])
  }

  /** A size rounded up to a multiple of four. */
  function RoundUp(n: nat): (r: nat)
    ensures n <= r < n + 4 && r % 4 == 0
  {
    (n + 3) / 4 * 4
  }

  function Zeros(n: nat): (r: seq<Byte>)
    ensures |r| == n
  {
    seq(n, _ => 0)
  }

  function Bodies(images: seq<seq<Byte>>): seq<Byte> {
    if images == [] then []
    else images[0] + Zeros(RoundUp(|images[0]|) - |images[0]|) + Bodies(images[1..])
  }

  /** The sizes, a zero, then the images, each filled up to a multiple of four bytes. */
  function Layout(images: seq<seq<Byte>>): seq<Byte> {
    Table(images) + Be32(0) + Bodies(images)
  }

  /** What the layout can hold: a size of zero would end the table. */
  predicate Packable(images: seq<seq<Byte>>) {
    forall image :: image in images ==> 0 < |image| < U32
  }

  /** The layout lies at `base`. */
  predicate LaidOut(mem: seq<Byte>, base: nat, images: seq<seq<Byte>>) {
    && Packable(images)
    && base + |Layout(images)| <= |mem| <= U32
    && mem[base..base + |Layout(images)|] == Layout(images)
  }

  // ---- where the images are ----

  function Sizes(images: seq<seq<Byte>>, k: nat): nat
    requires k <= |images|
  {
    if k == 0 then 0 else Sizes(images, k - 1) + RoundUp(|images[k - 1]|)
  }

  /** Where image `k` starts. */
  function StartOf(images: seq<seq<Byte>>, k: nat): nat
    requires k <= |images|
  {
    4 * |images| + 4 + Sizes(images, k)
  }

  lemma {:induction false} SizesStep(images: seq<seq<Byte>>, k: nat)
    requires 0 < k <= |images|
    ensures Sizes(images, k) == RoundUp(|images[0]|) + Sizes(images[1..], k - 1)
  {
    if k > 1 {
      SizesStep(images, k - 1);
      assert images[1..][k - 2] == images[k - 1];
    }
  }

  lemma SecondPart(a: seq<Byte>, b: seq<Byte>, i: nat, n: nat)
    requires i + n <= |b|
    ensures (a + b)[|a| + i..|a| + i + n] == b[i..i + n]
  {
  }

  lemma SliceOfSlice(mem: seq<Byte>, base: nat, l: seq<Byte>, i: nat, n: nat)
    requires base + |l| <= |mem| && mem[base..base + |l|] == l && i + n <= |l|
    ensures mem[base + i..base + i + n] == l[i..i + n]
  {
    var x, y := mem[base + i..base + i + n], l[i..i + n];
    forall k | 0 <= k < n
      ensures x[k] == y[k]
    {
      assert mem[base..base + |l|][i + k] == mem[base + i + k];
    }
  }

  lemma {:induction false} BodyAt(images: seq<seq<Byte>>, k: nat)
    requires k < |images|
    ensures var at := Sizes(images, k);
            at + |images[k]| <= |Bodies(images)| && Bodies(images)[at..at + |images[k]|] == images[k]
  {
    var head := images[0] + Zeros(RoundUp(|images[0]|) - |images[0]|);
    var rest := Bodies(images[1..]);
    assert Bodies(images) == head + rest;
    hide Bodies, Zeros, RoundUp;
    if k > 0 {
      SizesStep(images, k);
      BodyAt(images[1..], k - 1);
      hide Sizes;
      SecondPart(head, rest, Sizes(images[1..], k - 1), |images[k]|);
    }
  }

  /** Image `k` is found at its start, whole. */
  lemma ImageAt(mem: seq<Byte>, base: nat, images: seq<seq<Byte>>, k: nat)
    requires LaidOut(mem, base, images) && k < |images|
    ensures Holds(mem, base + StartOf(images, k), |images[k]|, images[k])
  {
    hide Layout, Bodies, Table, Sizes, Packable, Holds;
    BodyAt(images, k);
    BodyPlace(images, Sizes(images, k), |images[k]|);
    var l, at, image := Layout(images), StartOf(images, k), images[k];
    assert at + |image| <= |l| && l[at..at + |image|] == image;
    hide *;
    SliceIsImage(mem, base, l, at, image);
  }

  lemma SliceIsImage(mem: seq<Byte>, base: nat, l: seq<Byte>, at: nat, image: seq<Byte>)
    requires base + |l| <= |mem| && mem[base..base + |l|] == l
    requires at + |image| <= |l| && l[at..at + |image|] == image
    ensures Holds(mem, base + at, |image|, image)
  {
    SliceOfSlice(mem, base, l, at, |image|);
  }

  lemma BodyPlace(images: seq<seq<Byte>>, at: nat, n: nat)
    requires at + n <= |Bodies(images)|
    ensures var i := 4 * |images| + 4 + at;
            i + n <= |Layout(images)| && Layout(images)[i..i + n] == Bodies(images)[at..at + n]
  {
    hide Table, Bodies, Be32;
    SecondPart(Table(images) + Be32(0), Bodies(images), at, n);
  }

  // ---- the table, read through memory ----

  /** The word of the length table at `i`, in host order. */
  function Word(mem: seq<Byte>, base: nat, i: nat): int
    requires base + 4 * i + 4 <= |mem|
  {
    var a := base + 4 * i;
    Number(mem[a], mem[a + 1], mem[a + 2], mem[a + 3])
  }

  function Number(a: int, b: int, c: int, d: int): int {
    ((a * 256 + b) * 256 + c) * 256 + d
  }

  lemma Bytes4(n: nat)
    requires n < U32
    ensures Number(n / 0x100_0000 % 256, n / 0x1_0000 % 256, n / 0x100 % 256, n % 256) == n
  {
    assert n / 0x100_0000 * 256 + n / 0x1_0000 % 256 == n / 0x1_0000;
    assert n / 0x1_0000 * 256 + n / 0x100 % 256 == n / 0x100;
  }

  lemma WordBack(mem: seq<Byte>, base: nat, i: nat, n: nat)
    requires base + 4 * i + 4 <= |mem| && n < U32
    requires mem[base + 4 * i..base + 4 * i + 4] == Be32(n)
    ensures Word(mem, base, i) == n
  {
    var a := base + 4 * i;
    var w := mem[a..a + 4];
    assert mem[a] == w[0] && mem[a + 1] == w[1] && mem[a + 2] == w[2] && mem[a + 3] == w[3];
    Bytes4(n);
  }

  lemma {:induction false} TableAt(images: seq<seq<Byte>>, i: nat)
    requires i < |images|
    ensures Table(images)[4 * i..4 * i + 4] == Be32(|images[i]|)
  {
    var head, rest := Be32(|images[0]|), Table(images[1..]);
    assert Table(images) == head + rest;
    if i > 0 {
      TableAt(images[1..], i - 1);
      assert (head + rest)[4 * i..4 * i + 4] == rest[4 * i - 4..4 * i];
    }
  }

  /** Every size reads back, and the word after them is zero. */
  lemma WordAt(mem: seq<Byte>, base: nat, images: seq<seq<Byte>>, i: nat)
    requires LaidOut(mem, base, images) && i <= |images|
    ensures base + 4 * i + 4 <= |mem|
    ensures Word(mem, base, i) == if i < |images| then |images[i]| else 0
  {
    hide Layout, Table, Bodies, Be32;
    var n := if i < |images| then |images[i]| else 0;
    assert i < |images| ==> images[i] in images;
    LayoutWord(images, i);
    SliceOfSlice(mem, base, Layout(images), 4 * i, 4);
    WordBack(mem, base, i, n);
  }

  lemma LayoutWord(images: seq<seq<Byte>>, i: nat)
    requires i <= |images|
    ensures 4 * i + 4 <= |Layout(images)|
    ensures Layout(images)[4 * i..4 * i + 4] == Be32(if i < |images| then |images[i]| else 0)
  {
    hide Table, Bodies, Be32;
    var t, rest := Table(images), Bodies(images);
    if i < |images| {
      TableAt(images, i);
      FirstOf(t, Be32(0) + rest, 4 * i, 4);
      assert Layout(images) == t + (Be32(0) + rest);
    } else {
      assert Layout(images)[|t|..|t| + 4] == Be32(0);
    }
  }

  lemma FirstOf(a: seq<Byte>, b: seq<Byte>, i: nat, n: nat)
    requires i + n <= |a|
    ensures (a + b)[i..i + n] == a[i..i + n]
  {
  }

  // ---- the three computations ----

  /** The `len` bytes at `data` are the image. */
  predicate Holds(mem: seq<Byte>, data: nat, len: nat, image: seq<Byte>) {
    data + len <= |mem| && mem[data..data + len] == image
  }

  datatype Extract = BadPart | Part(data: nat, len: nat)

  /** `len` rounded up as the source does it, by its remainder. */
  method Skip(data: nat, len: nat) returns (r: nat)
    ensures r == data + RoundUp(len)
  {
    var tail := len % 4;
    r := data + len;
    if tail != 0 {
      r := r + (4 - tail);
    }
  }

  /**
    `do_imgextract` on the data of an image: part `k` is image `k`, a part the
    image does not have is refused, and with no part named it is image 0.
   */
  method ImgExtract(mem: seq<Byte>, base: nat, named: bool, part: nat, ghost images: seq<seq<Byte>>) returns (r: Extract)
    requires LaidOut(mem, base, images) && (!named ==> part == 0)
    ensures r == BadPart <==> named && part >= |images|
    ensures images == [] && !named ==> r == Part(base + 4, 0)
    ensures part < |images| ==> r == Part(base + StartOf(images, part), |images[part]|) && Holds(mem, r.data, r.len, images[part])
  {
    hide Layout, Word, RoundUp;
    var data := base + 4;
    var i := 0;
    WordAt(mem, base, images, 0);
    while Word(mem, base, i) != 0
      invariant i <= |images| && base + 4 * i + 4 <= |mem|
      invariant Word(mem, base, i) == if i < |images| then |images[i]| else 0
      invariant data == base + 4 + 4 * i + Sizes(images, if named && part < i then part else if named then i else 0)
      decreases |images| - i
    {
      data := data + 4;
      if named && part > i {
        data := Skip(data, Word(mem, base, i));
      }
      WordAt(mem, base, images, i + 1);
      i := i + 1;
    }
    if i < |images| {
      NonZero(mem, base, images, i);
    }
    if named && part >= i {
      return BadPart;
    }
    WordAt(mem, base, images, part);
    if part < |images| {
      ImageAt(mem, base, images, part);
    }
    r := Part(data, Word(mem, base, part));
  }

  lemma NonZero(mem: seq<Byte>, base: nat, images: seq<seq<Byte>>, i: nat)
    requires LaidOut(mem, base, images) && i < |images|
    ensures |images[i]| != 0
  {
    assert images[i] in images;
  }

  /** The kernel of `do_bootm`: always image 0. */
  method BootmKernel(mem: seq<Byte>, base: nat, ghost images: seq<seq<Byte>>) returns (data: nat, len: nat)
    requires LaidOut(mem, base, images) && images != []
    ensures data == base + StartOf(images, 0) && Holds(mem, data, len, images[0])
  {
    hide LaidOut, Word, Holds;
    ImageAt(mem, base, images, 0);
    WordAt(mem, base, images, 0);
    len := Word(mem, base, 0);
    data := base + 8;
    data := SkipSizes(mem, base, data, images);
  }

  /** The loop over the further sizes, from the second, that both boot routines have. */
  method SkipSizes(mem: seq<Byte>, base: nat, from: nat, ghost images: seq<seq<Byte>>) returns (data: nat)
    requires LaidOut(mem, base, images) && images != []
    ensures data == from + 4 * (|images| - 1)
  {
    hide Layout, Word;
    data := from;
    var i := 1;
    WordAt(mem, base, images, 1);
    while Word(mem, base, i) != 0
      invariant 1 <= i <= |images| && base + 4 * i + 4 <= |mem|
      invariant Word(mem, base, i) == if i < |images| then |images[i]| else 0
      invariant data == from + 4 * (i - 1)
      decreases |images| - i
    {
      data := data + 4;
      WordAt(mem, base, images, i + 1);
      i := i + 1;
    }
    if i < |images| {
      NonZero(mem, base, images, i);
    }
  }

  /** The initial ramdisk of `do_bootm_linux`: image 1, or none. */
  method BootmInitrd(mem: seq<Byte>, base: nat, ghost images: seq<seq<Byte>>) returns (data: nat, len: nat)
    requires LaidOut(mem, base, images) && images != []
    ensures if |images| > 1 then data == base + StartOf(images, 1) && Holds(mem, data, len, images[1]) else data == 0 && len == 0
  {
    assert Sizes(images, 1) == RoundUp(|images[0]|);
    hide LaidOut, Word, Sizes, RoundUp, Holds;
    if |images| > 1 {
      ImageAt(mem, base, images, 1);
    }
    WordAt(mem, base, images, 0);
    WordAt(mem, base, images, 1);
    if |images| > 1 {
      NonZero(mem, base, images, 1);
    }
    if Word(mem, base, 1) != 0 {
      data := base + 8;
      data := SkipSizes(mem, base, data, images);
      data := Skip(data, Word(mem, base, 0));
      len := Word(mem, base, 1);
    } else {
      data, len := 0, 0;
    }
  }
}
