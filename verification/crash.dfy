/** What the write-ahead log (kernel/log.c) does to the disk, write by write.

    An image is the disk between two block writes, so a crash leaves some image.
    `Contents` is what an image means: the home blocks as recovery would make
    them.  The theorem is `RunAtomic`: over any sequence of group commits, each
    possibly cut short by a crash at any write, with any number of further
    crashes inside recovery, the home blocks end as the committed transactions
    in order, where a cut commit counts exactly if its first header write was
    made. */
module CrashLog {
  import opened BufferCache

  const MAXOPBLOCKS: nat := 10
  const LOGSIZE: nat := MAXOPBLOCKS * 3

  type Image = seq<Block>

  /** log.start and log.size: the header block, then the slots. */
  datatype Layout = Layout(start: nat, size: nat) {
    predicate Home(x: int) {
      x < start || start + size <= x
    }
    function Slots(): nat {
      if size == 0 then 0 else if size - 1 < LOGSIZE then size - 1 else LOGSIZE
    }
    ghost predicate Fits(img: Image) {
      size > 0 && start + size <= |img| && |img[start].words| == WORDS
    }
    /** lh->n and lh->block[t] of the header on disk. */
    function N(img: Image): int
      requires Fits(img)
    {
      img[start].words[0]
    }
    function Dst(img: Image, t: nat): int
      requires Fits(img) && t < LOGSIZE
    {
      img[start].words[1 + t]
    }
    /** An image from which recovery is safe: the header counts slots of the log
        and names home blocks. */
    ghost predicate Sound(img: Image) {
      && Fits(img)
      && 0 <= N(img) <= Slots()
      && (forall t | 0 <= t < N(img) :: 0 <= Dst(img, t) < |img| && Home(Dst(img, t)))
    }
  }

  /** An image with an empty log. */
  ghost predicate Quiet(l: Layout, img: Image) {
    l.Sound(img) && l.N(img) == 0
  }

  /** Block x once the first n logged blocks are installed: the last entry wins. */
  function Latest(l: Layout, img: Image, n: nat, x: nat): Block
    requires l.Fits(img) && n <= l.Slots() && x < |img|
  {
    if n == 0 then img[x]
    else if l.Dst(img, n - 1) == x then img[l.start + n]
    else Latest(l, img, n - 1, x)
  }

  /** Block x as recovery from this image makes it. */
  function Contents(l: Layout, img: Image, x: nat): Block
    requires l.Sound(img) && x < |img|
  {
    Latest(l, img, l.N(img), x)
  }

  /** The image after the first k of these writes. */
  function After(img: Image, s: seq<Image>, k: nat): Image {
    if k == 0 || s == [] then img else if k < |s| then s[k - 1] else s[|s| - 1]
  }

  /** The same home blocks. */
  ghost predicate SameHome(l: Layout, a: Image, b: Image) {
    |a| == |b| && forall x | 0 <= x < |a| && l.Home(x) :: a[x] == b[x]
  }

  /** The same home blocks after recovery. */
  ghost predicate SameMeaning(l: Layout, a: Image, b: Image) {
    l.Sound(a) && l.Sound(b) && |a| == |b| &&
    forall x | 0 <= x < |a| && l.Home(x) :: Contents(l, a, x) == Contents(l, b, x)
  }

  /** Recovery from the image gives these home blocks. */
  ghost predicate Means(l: Layout, img: Image, home: Image) {
    l.Sound(img) && |img| == |home| && forall x | 0 <= x < |img| && l.Home(x) :: Contents(l, img, x) == home[x]
  }

  lemma MeansSame(l: Layout, a: Image, b: Image, home: Image)
    requires SameMeaning(l, a, b) && Means(l, b, home)
    ensures Means(l, a, home)
  {
  }

  lemma MeansOne(l: Layout, img: Image, a: Image, b: Image)
    requires Means(l, img, a) && Means(l, img, b)
    ensures SameHome(l, a, b)
  {
  }

  lemma QuietFits(l: Layout, img: Image)
    requires Quiet(l, img)
    ensures l.Fits(img)
  {
  }

  lemma QuietMeans(l: Layout, img: Image)
    requires Quiet(l, img)
    ensures Means(l, img, img)
  {
  }

  /* -------- the writes -------- */

  /** install_trans: copy slot t to its home. */
  function InstallOne(l: Layout, img: Image, t: nat): (r: Image)
    requires l.Sound(img) && t < l.N(img)
    ensures |r| == |img|
  {
    img[l.Dst(img, t) := img[l.start + 1 + t]]
  }

  lemma InstallOneKeeps(l: Layout, img: Image, t: nat)
    requires l.Sound(img) && t < l.N(img)
    ensures SameMeaning(l, InstallOne(l, img, t), img)
    ensures l.N(InstallOne(l, img, t)) == l.N(img)
  {
    var r := InstallOne(l, img, t);
    assert r[l.start] == img[l.start];
    assert forall i | 0 <= i < l.N(img) :: l.Dst(r, i) == l.Dst(img, i);
    assert l.Sound(r);
    forall x | 0 <= x < |img| && l.Home(x) ensures Contents(l, r, x) == Contents(l, img, x) {
      LatestSame(l, img, r, l.N(img), t, x);
    }
  }

  /** A change to the home of entry t does not show once entry t is replayed. */
  lemma {:induction false} LatestSame(l: Layout, img: Image, r: Image, n: nat, t: nat, x: nat)
    requires l.Sound(img) && t < l.N(img) && r == InstallOne(l, img, t)
    requires n <= l.N(img) && x < |img| && l.Home(x)
    requires x == l.Dst(img, t) ==> t < n
    ensures Latest(l, r, n, x) == Latest(l, img, n, x)
  {
    assert r[l.start] == img[l.start];
    if n > 0 && l.Dst(img, n - 1) != x {
      LatestSame(l, img, r, n - 1, t, x);
    }
  }

  /** The images of install_trans from entry t on. */
  function InstallImages(l: Layout, img: Image, t: nat): (s: seq<Image>)
    requires l.Sound(img) && t <= l.N(img)
    ensures |s| == l.N(img) - t
    decreases l.N(img) - t
  {
    if t == l.N(img) then [] else
      var r := InstallOne(l, img, t);
      InstallOneKeeps(l, img, t);
      [r] + InstallImages(l, r, t + 1)
  }

  lemma AfterCons(img: Image, r: Image, s: seq<Image>, i: nat)
    requires i > 0
    ensures After(img, [r] + s, i) == After(r, s, i - 1)
  {
  }

  /** An installation is its first write and the rest. */
  lemma {:induction false} InstallNext(l: Layout, img: Image, t: nat)
    requires l.Sound(img) && t < l.N(img)
    ensures var r := InstallOne(l, img, t);
            && l.Sound(r) && SameMeaning(l, r, img) && l.N(r) == l.N(img)
            && (forall i | 0 <= i < LOGSIZE :: l.Dst(r, i) == l.Dst(img, i))
            && InstallImages(l, img, t) == [r] + InstallImages(l, r, t + 1)
  {
    InstallOneKeeps(l, img, t);
    assert InstallOne(l, img, t)[l.start] == img[l.start];
  }

  /** The i-th image of an installation, from the one before it. */
  lemma {:induction false} InstallImagesAt(l: Layout, img: Image, t: nat, i: nat)
    requires l.Sound(img) && t + i < l.N(img)
    ensures |After(img, InstallImages(l, img, t), i)| == |img|
    ensures InstallImages(l, img, t)[i] ==
            After(img, InstallImages(l, img, t), i)[l.Dst(img, t + i) := img[l.start + 1 + t + i]]
    decreases i
  {
    hide InstallImages, SameMeaning;
    var r := InstallOne(l, img, t);
    InstallNext(l, img, t);
    if i > 0 {
      InstallImagesAt(l, r, t + 1, i - 1);
      AfterCons(img, r, InstallImages(l, r, t + 1), i);
    }
  }

  /** Clearing the header: write_head with lh.n == 0 stores only the count. */
  function Clear(l: Layout, img: Image): (r: Image)
    requires l.Fits(img)
    ensures |r| == |img|
  {
    img[l.start := Block(img[l.start].words[0 := 0])]
  }

  function Last(img: Image, s: seq<Image>): Image {
    if s == [] then img else s[|s| - 1]
  }

  lemma LastCons(img: Image, r: Image, s: seq<Image>)
    ensures Last(img, [r] + s) == Last(r, s)
  {
  }

  /** recover_from_log: install, then clear. */
  function RecoveryImages(l: Layout, img: Image): (s: seq<Image>)
    requires l.Sound(img)
    ensures |s| == l.N(img) + 1
  {
    var s := InstallImages(l, img, 0);
    InstallKeeps(l, img, 0);
    s + [Clear(l, Last(img, s))]
  }

  /** Every image of an installation means what the first one meant, and the last
      one has the home blocks in place. */
  lemma {:induction false} InstallKeeps(l: Layout, img: Image, t: nat)
    requires l.Sound(img) && t <= l.N(img)
    ensures forall i | 0 <= i < |InstallImages(l, img, t)| ::
              SameMeaning(l, InstallImages(l, img, t)[i], img) && l.N(InstallImages(l, img, t)[i]) == l.N(img)
    decreases l.N(img) - t
  {
    if t < l.N(img) {
      var r := InstallOne(l, img, t);
      InstallOneKeeps(l, img, t);
      InstallKeeps(l, r, t + 1);
    }
  }

  /** Installing the entries from t on, over an image where the first t are in
      place, puts every home block in place. */
  lemma {:induction false} InstallPlaces(l: Layout, img: Image, t: nat, x: nat)
    requires l.Sound(img) && t <= l.N(img) && x < |img| && l.Home(x)
    requires img[x] == Latest(l, img, t, x)
    ensures l.Sound(Last(img, InstallImages(l, img, t))) && |Last(img, InstallImages(l, img, t))| == |img|
    ensures Last(img, InstallImages(l, img, t))[x] == Contents(l, img, x)
    decreases l.N(img) - t
  {
    hide InstallImages;
    if t < l.N(img) {
      var r := InstallOne(l, img, t);
      InstallNext(l, img, t);
      if x == l.Dst(img, t) {
        assert Latest(l, r, t + 1, x) == r[x];
      } else {
        LatestSame(l, img, r, t, t, x);
        assert Latest(l, r, t + 1, x) == Latest(l, r, t, x) == img[x];
      }
      InstallPlaces(l, r, t + 1, x);
      LastCons(img, r, InstallImages(l, r, t + 1));
    } else {
      assert InstallImages(l, img, t) == [];
    }
  }

  /** With every block in place, clearing the header changes no meaning. */
  lemma ClearKeeps(l: Layout, img: Image)
    requires l.Sound(img) && forall x | 0 <= x < |img| && l.Home(x) :: img[x] == Contents(l, img, x)
    ensures SameMeaning(l, Clear(l, img), img) && l.N(Clear(l, img)) == 0
    ensures forall x | 0 <= x < |img| && l.Home(x) :: Clear(l, img)[x] == Contents(l, img, x)
  {
  }

  /** Every image recovery passes through means what the image it started from
      meant, and the last one has it in place with an empty log. */
  lemma RecoveryKeeps(l: Layout, img: Image)
    requires l.Sound(img)
    ensures forall i | 0 <= i < |RecoveryImages(l, img)| :: SameMeaning(l, RecoveryImages(l, img)[i], img)
    ensures var last := RecoveryImages(l, img)[l.N(img)];
            Quiet(l, last) && Means(l, img, last)
  {
    InstallKeeps(l, img, 0);
    var s := InstallImages(l, img, 0);
    var last := Last(img, s);
    forall x | 0 <= x < |img| && l.Home(x) ensures last[x] == Contents(l, img, x) {
      InstallPlaces(l, img, 0, x);
    }
    assert SameMeaning(l, last, img);
    ClearKeeps(l, last);
  }

  /* -------- commit -------- */

  /** A group commit's blocks: lh.block[0..n] and their cached data. */
  datatype Txn = Txn(blocks: seq<nat>, data: seq<Block>) {
    ghost predicate Fits(l: Layout, size: nat) {
      && |blocks| == |data| <= l.Slots()
      && (forall t | 0 <= t < |blocks| :: blocks[t] < size && l.Home(blocks[t]))
    }
  }

  /** Block x after the transaction's first n blocks. */
  function Applied(txn: Txn, n: nat, was: Block, x: nat): Block
    requires n <= |txn.blocks| == |txn.data|
  {
    if n == 0 then was
    else if txn.blocks[n - 1] == x then txn.data[n - 1]
    else Applied(txn, n - 1, was, x)
  }

  /** The home blocks after the transaction. */
  function Apply(img: Image, txn: Txn): (r: Image)
    requires |txn.blocks| == |txn.data|
    ensures |r| == |img|
  {
    seq(|img|, x requires 0 <= x < |img| => Applied(txn, |txn.blocks|, img[x], x))
  }

  /** write_log: the images that fill slots t, t+1, ... */
  function LogImages(l: Layout, img: Image, data: seq<Block>, t: nat): (s: seq<Image>)
    requires l.Fits(img) && t <= |data| <= l.Slots()
    ensures |s| == |data| - t
    decreases |data| - t
  {
    if t == |data| then [] else
      var r := img[l.start + 1 + t := data[t]];
      [r] + LogImages(l, r, data, t + 1)
  }

  lemma {:induction false} LogNext(l: Layout, img: Image, data: seq<Block>, t: nat)
    requires l.Fits(img) && t < |data| <= l.Slots()
    ensures var r := img[l.start + 1 + t := data[t]];
            l.Fits(r) && LogImages(l, img, data, t) == [r] + LogImages(l, r, data, t + 1)
  {
  }

  /** The i-th image of write_log, from the one before it. */
  lemma {:induction false} LogImagesAt(l: Layout, img: Image, data: seq<Block>, t: nat, i: nat)
    requires l.Fits(img) && t + i < |data| <= l.Slots()
    ensures |After(img, LogImages(l, img, data, t), i)| == |img|
    ensures LogImages(l, img, data, t)[i] ==
            After(img, LogImages(l, img, data, t), i)[l.start + 1 + t + i := data[t + i]]
    decreases i
  {
    hide LogImages;
    LogNext(l, img, data, t);
    if i > 0 {
      var r := img[l.start + 1 + t := data[t]];
      LogImagesAt(l, r, data, t + 1, i - 1);
      AfterCons(img, r, LogImages(l, r, data, t + 1), i);
    }
  }

  /** The header block write_head makes of the one on disk. */
  function Header(was: Block, blocks: seq<nat>): (r: Block)
    requires |was.words| == WORDS && |blocks| <= LOGSIZE
    ensures |r.words| == WORDS
  {
    Block([|blocks|] + blocks + was.words[|blocks| + 1..])
  }

  function WriteHead(l: Layout, img: Image, blocks: seq<nat>): (r: Image)
    requires l.Fits(img) && |blocks| <= LOGSIZE
    ensures |r| == |img|
  {
    img[l.start := Header(img[l.start], blocks)]
  }

  /** Filling slots of an empty log changes no home block and no header. */
  lemma {:induction false} LogKeeps(l: Layout, img: Image, data: seq<Block>, t: nat)
    requires Quiet(l, img) && t <= |data| <= l.Slots()
    ensures forall i | 0 <= i < |LogImages(l, img, data, t)| ::
              var r := LogImages(l, img, data, t)[i];
              SameMeaning(l, r, img) && SameHome(l, r, img) && Quiet(l, r)
    ensures var last := Last(img, LogImages(l, img, data, t));
            |last| == |img| && Quiet(l, last) && SameHome(l, last, img) &&
            (forall j | l.start < j <= l.start + t :: last[j] == img[j]) &&
            (forall j | l.start + t < j <= l.start + |data| :: last[j] == data[j - l.start - 1])
    decreases |data| - t
  {
    if t < |data| {
      var r := img[l.start + 1 + t := data[t]];
      assert r[l.start] == img[l.start];
      LogKeeps(l, r, data, t + 1);
      assert Last(img, LogImages(l, img, data, t)) == Last(r, LogImages(l, r, data, t + 1));
    }
  }

  /** The header write is the commit: from the old contents to the new, at once. */
  lemma HeadCommits(l: Layout, img: Image, txn: Txn)
    requires l.Fits(img) && txn.Fits(l, |img|)
    requires forall j | l.start < j <= l.start + |txn.data| :: img[j] == txn.data[j - l.start - 1]
    ensures l.Sound(WriteHead(l, img, txn.blocks)) && l.N(WriteHead(l, img, txn.blocks)) == |txn.blocks|
    ensures forall x | 0 <= x < |img| && l.Home(x) ::
              Contents(l, WriteHead(l, img, txn.blocks), x) == Apply(img, txn)[x]
  {
    forall x | 0 <= x < |img| && l.Home(x)
      ensures Latest(l, WriteHead(l, img, txn.blocks), |txn.blocks|, x) == Apply(img, txn)[x]
    {
      HeadReplays(l, img, txn, |txn.blocks|, x);
    }
  }

  lemma {:induction false} HeadReplays(l: Layout, img: Image, txn: Txn, n: nat, x: nat)
    requires l.Fits(img) && txn.Fits(l, |img|) && x < |img| && l.Home(x) && n <= |txn.blocks|
    requires forall j | l.start < j <= l.start + |txn.data| :: img[j] == txn.data[j - l.start - 1]
    ensures Latest(l, WriteHead(l, img, txn.blocks), n, x) == Applied(txn, n, img[x], x)
  {
    if n > 0 {
      HeadReplays(l, img, txn, n - 1, x);
    }
  }

  /** The image once the header names the transaction's filled slots. */
  function Headed(l: Layout, img: Image, txn: Txn): (r: Image)
    requires Quiet(l, img) && txn.Fits(l, |img|)
    ensures l.Sound(r) && l.N(r) == |txn.blocks| && Means(l, r, Apply(img, txn))
  {
    LogKeeps(l, img, txn.data, 0);
    var before := Last(img, LogImages(l, img, txn.data, 0));
    HeadCommits(l, before, txn);
    WriteHead(l, before, txn.blocks)
  }

  /** Every image a group commit passes through. */
  function CommitImages(l: Layout, img: Image, txn: Txn): (s: seq<Image>)
    requires Quiet(l, img) && txn.Fits(l, |img|)
    ensures txn.blocks == [] ==> s == []
    ensures txn.blocks != [] ==> |s| == 2 * |txn.blocks| + 2
  {
    if txn.blocks == [] then [] else
      LogImages(l, img, txn.data, 0) + [Headed(l, img, txn)] + RecoveryImages(l, Headed(l, img, txn))
  }

  /** Commit atomicity: until its n slots are written the image means the old
      contents, from the header write on the new ones, and at the end the new
      contents are in place and the log is empty. */
  lemma CommitAtomic(l: Layout, img: Image, txn: Txn, i: nat)
    requires Quiet(l, img) && txn.Fits(l, |img|)
    requires i < |CommitImages(l, img, txn)|
    ensures Means(l, CommitImages(l, img, txn)[i], if i < |txn.blocks| then img else Apply(img, txn))
    ensures i + 1 == |CommitImages(l, img, txn)| ==>
              Quiet(l, CommitImages(l, img, txn)[i]) && SameHome(l, CommitImages(l, img, txn)[i], Apply(img, txn))
  {
    hide Headed, LogImages, RecoveryImages, Means, SameMeaning, SameHome, Apply;
    LogKeeps(l, img, txn.data, 0);
    QuietMeans(l, img);
    var head := Headed(l, img, txn);
    var n := |txn.blocks|;
    RecoveryKeeps(l, head);
    MeansOne(l, head, RecoveryImages(l, head)[n], Apply(img, txn));
    var r := CommitImages(l, img, txn)[i];
    if i < n {
      assert r == LogImages(l, img, txn.data, 0)[i];
      MeansSame(l, r, img, img);
    } else if i == n {
      assert r == head;
    } else {
      assert r == RecoveryImages(l, head)[i - n - 1];
      MeansSame(l, r, head, Apply(img, txn));
    }
  }

  /** What installing entries leaves alone, and what it does to the images. */
  lemma {:induction false} InstallSlots(l: Layout, img: Image, t: nat, i: nat)
    requires l.Sound(img) && t <= l.N(img) && i <= l.N(img) - t
    ensures var r := After(img, InstallImages(l, img, t), i);
            |r| == |img| && forall x | l.start <= x < l.start + l.size :: r[x] == img[x]
    decreases i
  {
    hide InstallImages, SameMeaning;
    if i > 0 {
      var r := InstallOne(l, img, t);
      InstallNext(l, img, t);
      InstallSlots(l, r, t + 1, i - 1);
      AfterCons(img, r, InstallImages(l, r, t + 1), i);
    }
  }

  /** The image before the i-th write of a commit. */
  function Before(l: Layout, img: Image, txn: Txn, i: nat): Image
    requires Quiet(l, img) && txn.Fits(l, |img|)
  {
    After(img, CommitImages(l, img, txn), i)
  }

  lemma CommitParts(l: Layout, img: Image, txn: Txn)
    requires Quiet(l, img) && txn.Fits(l, |img|) && txn.blocks != []
    ensures var n := |txn.blocks|; var s := CommitImages(l, img, txn); var head := Headed(l, img, txn);
            var logged, home := LogImages(l, img, txn.data, 0), InstallImages(l, head, 0);
            && |s| == 2 * n + 2 && |logged| == |home| == n && |head| == |img|
            && (forall i | 0 <= i < n :: s[i] == logged[i]) && s[n] == head
            && (forall i | n < i <= 2 * n :: s[i] == home[i - n - 1])
            && l.Fits(home[n - 1]) && s[2 * n + 1] == Clear(l, home[n - 1])
            && l.Fits(logged[n - 1]) && head == WriteHead(l, logged[n - 1], txn.blocks)
  {
    hide LogImages, InstallImages, SameMeaning, SameHome, Means;
    LogKeeps(l, img, txn.data, 0);
    InstallKeeps(l, Headed(l, img, txn), 0);
    SoundLast(l, Headed(l, img, txn));
  }

  lemma SoundLast(l: Layout, img: Image)
    requires l.Sound(img)
    ensures l.Fits(Last(img, InstallImages(l, img, 0)))
  {
    InstallKeeps(l, img, 0);
  }

  /** The header names the transaction's blocks, and the slots hold its data. */
  lemma HeadedSlots(l: Layout, img: Image, txn: Txn, t: nat)
    requires Quiet(l, img) && txn.Fits(l, |img|) && t < |txn.blocks|
    ensures var head := Headed(l, img, txn);
            |head| == |img| && l.Dst(head, t) == txn.blocks[t] && head[l.start + 1 + t] == txn.data[t]
  {
    hide SameMeaning, SameHome, Means;
    LogKeeps(l, img, txn.data, 0);
  }

  /** The i-th write of a commit: a slot, the header, a home block, or the header again. */
  lemma CommitAt(l: Layout, img: Image, txn: Txn, i: nat)
    requires Quiet(l, img) && txn.Fits(l, |img|) && i < |CommitImages(l, img, txn)|
    ensures |CommitImages(l, img, txn)| == 2 * |txn.blocks| + 2 && |Before(l, img, txn, i)| == |img|
    ensures i < |txn.blocks| ==> CommitImages(l, img, txn)[i] == Before(l, img, txn, i)[l.start + 1 + i := txn.data[i]]
    ensures i == |txn.blocks| ==>
              l.Fits(Before(l, img, txn, i)) && CommitImages(l, img, txn)[i] == WriteHead(l, Before(l, img, txn, i),
                txn.blocks)
    ensures |txn.blocks| < i <= 2 * |txn.blocks| ==>
              var t := i - |txn.blocks| - 1;
              && Before(l, img, txn, i)[l.start + 1 + t] == txn.data[t]
              && CommitImages(l, img, txn)[i] == Before(l, img, txn, i)[txn.blocks[t] := txn.data[t]]
    ensures i == 2 * |txn.blocks| + 1 ==>
              l.Fits(Before(l, img, txn, i)) && CommitImages(l, img, txn)[i] == Clear(l, Before(l, img, txn, i))
  {
    hide CommitImages, Headed, LogImages, InstallImages, WriteHead, Clear, Quiet, Means;
    QuietFits(l, img);
    CommitParts(l, img, txn);
    var n, head := |txn.blocks|, Headed(l, img, txn);
    var logged, home := LogImages(l, img, txn.data, 0), InstallImages(l, head, 0);
    if i < n {
      LogImagesAt(l, img, txn.data, 0, i);
      assert Before(l, img, txn, i) == After(img, logged, i);
    } else if n < i <= 2 * n {
      var t := i - n - 1;
      assert Before(l, img, txn, i) == After(head, home, t);
      HeadedSlots(l, img, txn, t);
      InstallImagesAt(l, head, 0, t);
      InstallSlots(l, head, 0, t);
    } else {
      LogLast(l, img, txn.data);
      InstallSlots(l, head, 0, n);
    }
  }

  lemma LogLast(l: Layout, img: Image, data: seq<Block>)
    requires Quiet(l, img) && 0 < |data| <= l.Slots()
    ensures |LogImages(l, img, data, 0)[|data| - 1]| == |img|
  {
    LogKeeps(l, img, data, 0);
  }

  /* -------- runs -------- */

  /** A group commit that completes, or one cut off after `writes` block writes
      and followed by reboots: each but the last again cut off after so many of
      recovery's writes. */
  datatype Event = Done(txn: Txn) | Cut(txn: Txn, writes: nat, reboots: seq<nat>)

  /** Cut-off recoveries, then one that completes. */
  function Reboots(l: Layout, img: Image, reboots: seq<nat>): (r: Image)
    requires l.Sound(img)
    ensures Quiet(l, r) && Means(l, img, r)
    decreases |reboots|
  {
    RecoveryKeeps(l, img);
    if reboots == [] then RecoveryImages(l, img)[l.N(img)]
    else Reboots(l, After(img, RecoveryImages(l, img), reboots[0]), reboots[1..])
  }

  /** The disk a crash after so many of the commit's writes leaves. */
  function Crash(l: Layout, img: Image, txn: Txn, writes: nat): (r: Image)
    requires Quiet(l, img) && txn.Fits(l, |img|)
    ensures Means(l, r, if writes > |txn.blocks| then Apply(img, txn) else img)
  {
    var s := CommitImages(l, img, txn);
    if writes == 0 || s == [] then img
    else
      var k := if writes < |s| then writes else |s|;
      CommitAtomic(l, img, txn, k - 1);
      s[k - 1]
  }

  /** The disk after the event. */
  function Step(l: Layout, img: Image, e: Event): (r: Image)
    requires Quiet(l, img) && e.txn.Fits(l, |img|)
    ensures Quiet(l, r) && SameHome(l, r, Meaning(img, e))
  {
    match e
    case Done(txn) =>
      var s := CommitImages(l, img, txn);
      if s == [] then img else CommitAtomic(l, img, txn, |s| - 1); s[|s| - 1]
    case Cut(txn, writes, reboots) => Reboots(l, Crash(l, img, txn, writes), reboots)
  }

  /** What the event should do: all of the transaction or none of it, and all of
      it exactly if it got past its slots to the header. */
  function Meaning(img: Image, e: Event): (r: Image)
    requires |e.txn.blocks| == |e.txn.data|
    ensures |r| == |img|
  {
    match e
    case Done(txn) => Apply(img, txn)
    case Cut(txn, writes, _) => if writes > |txn.blocks| then Apply(img, txn) else img
  }

  ghost predicate Possible(l: Layout, size: nat, events: seq<Event>) {
    forall i | 0 <= i < |events| :: events[i].txn.Fits(l, size)
  }

  function Run(l: Layout, img: Image, events: seq<Event>): (r: Image)
    requires Quiet(l, img) && Possible(l, |img|, events)
    ensures Quiet(l, r) && |r| == |img|
    decreases |events|
  {
    if events == [] then img
    else Run(l, Step(l, img, events[0]), events[1..])
  }

  function Meanings(img: Image, events: seq<Event>): (r: Image)
    requires forall i | 0 <= i < |events| :: |events[i].txn.blocks| == |events[i].txn.data|
    ensures |r| == |img|
    decreases |events|
  {
    if events == [] then img
    else Meanings(Meaning(img, events[0]), events[1..])
  }

  /** Crash atomicity over whole runs. */
  lemma {:induction false} RunAtomic(l: Layout, img: Image, spec: Image, events: seq<Event>)
    requires Quiet(l, img) && Possible(l, |img|, events) && SameHome(l, img, spec)
    ensures SameHome(l, Run(l, img, events), Meanings(spec, events))
    decreases |events|
  {
    if events != [] {
      var e := events[0];
      assert SameHome(l, Meaning(img, e), Meaning(spec, e));
      RunAtomic(l, Step(l, img, e), Meaning(spec, e), events[1..]);
    }
  }
}
