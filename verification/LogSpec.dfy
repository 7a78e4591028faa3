/** What log.c does to the disk, one block write at a time, and why a crash between any two
    writes is harmless.

    An image is the disk at one moment. The functions ...Images list the images a piece of
    log.c leaves behind, in order; a crash keeps any prefix of them. */
module LogSpec {
  import opened Prelude
  import opened Blocks

  /** The log area: a header block and size - 1 data blocks. */
  datatype Layout = Layout(start: nat, size: nat) {
    ghost predicate InLog(blk: nat) {
      start <= blk < start + size
    }
  }

  /** Block numbers that a log of this layout may list: they fit the area and name home blocks. */
  ghost predicate Loggable(blocks: seq<nat>, lay: Layout, disksize: nat)
  {
    && |blocks| <= LOGSIZE && |blocks| < lay.size && lay.start + lay.size <= disksize <= 0x1_0000_0000
    && forall i :: 0 <= i < |blocks| ==> blocks[i] < disksize && !lay.InLog(blocks[i])
  }

  ghost predicate Distinct(blocks: seq<nat>) {
    forall i, j :: 0 <= i < j < |blocks| ==> blocks[i] != blocks[j]
  }

  ghost predicate SameHome(a: Image, b: Image, lay: Layout) {
    |a| == |b| && forall blk :: 0 <= blk < |a| && !lay.InLog(blk) ==> a[blk] == b[blk]
  }

  lemma Prefixes<T>(a: seq<T>, b: seq<T>, k: nat)
    requires k <= |a| + |b|
    ensures (a + b)[..k] == if k <= |a| then a[..k] else a + b[..k - |a|]
  {
  }

  // ----- The header block -----

  /** The block numbers a header lists. */
  function Head(b: Block): (blocks: seq<nat>)
    requires GetWord(b, 0) <= LOGSIZE
  {
    seq(GetWord(b, 0), i requires 0 <= i < GetWord(b, 0) => GetWord(b, 1 + i) as nat)
  }

  /** write_head's buffer after the count and the first k entries have been stored. */
  function Encoded(b: Block, blocks: seq<nat>, k: nat): Block
    requires k <= |blocks| <= LOGSIZE && forall i :: 0 <= i < |blocks| ==> blocks[i] < 0x1_0000_0000
  {
    if k == 0 then PutWord(b, 0, |blocks|) else PutWord(Encoded(b, blocks, k - 1), k, blocks[k - 1])
  }

  lemma {:induction false} EncodedWords(b: Block, blocks: seq<nat>, k: nat)
    requires k <= |blocks| <= LOGSIZE && forall i :: 0 <= i < |blocks| ==> blocks[i] < 0x1_0000_0000
    ensures GetWord(Encoded(b, blocks, k), 0) == |blocks|
    ensures forall i :: 0 <= i < k ==> GetWord(Encoded(b, blocks, k), 1 + i) == blocks[i]
  {
    if k == 0 {
      WordRoundTrip(b, 0, |blocks|);
    } else {
      EncodedWords(b, blocks, k - 1);
      WordRoundTrip(Encoded(b, blocks, k - 1), k, blocks[k - 1]);
    }
  }

  /** read_head undoes write_head, whatever the block held before. */
  lemma HeadRoundTrip(b: Block, blocks: seq<nat>)
    requires |blocks| <= LOGSIZE && forall i :: 0 <= i < |blocks| ==> blocks[i] < 0x1_0000_0000
    ensures GetWord(Encoded(b, blocks, |blocks|), 0) <= LOGSIZE
    ensures Head(Encoded(b, blocks, |blocks|)) == blocks
  {
    EncodedWords(b, blocks, |blocks|);
  }

  // ----- Installing and recovering -----

  /** The disk after install_trans has copied the first k log blocks home. */
  ghost function Installed(img: Image, lay: Layout, blocks: seq<nat>, k: nat): (r: Image)
    requires Loggable(blocks, lay, |img|) && k <= |blocks|
    ensures |r| == |img|
  {
    if k == 0 then img
    else Installed(img, lay, blocks, k - 1)[blocks[k - 1] := img[lay.start + k]]
  }

  /** A disk that recovery may meet. */
  ghost predicate Sound(img: Image, lay: Layout)
  {
    && 0 < lay.size && lay.start < |img|
    && GetWord(img[lay.start], 0) <= LOGSIZE
    && Loggable(Head(img[lay.start]), lay, |img|)
  }

  /** The disk after install_trans has run to its end and write_head has emptied the header. */
  ghost function Cleared(img: Image, lay: Layout, blocks: seq<nat>): (r: Image)
    requires Loggable(blocks, lay, |img|)
    ensures |r| == |img|
  {
    Installed(img, lay, blocks, |blocks|)[lay.start := Encoded(img[lay.start], [], 0)]
  }

  /** The disk after a recovery that runs to its end. */
  ghost function Recovered(img: Image, lay: Layout): (r: Image)
    requires Sound(img, lay)
    ensures |r| == |img|
  {
    Cleared(img, lay, Head(img[lay.start]))
  }

  /** Installing never touches the log area. */
  lemma {:induction false} InstalledKeepsLog(img: Image, lay: Layout, blocks: seq<nat>, k: nat)
    requires Loggable(blocks, lay, |img|) && k <= |blocks|
    ensures forall blk: nat :: lay.InLog(blk) ==> Installed(img, lay, blocks, k)[blk] == img[blk]
  {
    if k != 0 {
      InstalledKeepsLog(img, lay, blocks, k - 1);
    }
  }

  /** One more step of install_trans. */
  lemma InstallStep(img: Image, lay: Layout, blocks: seq<nat>, k: nat)
    requires Loggable(blocks, lay, |img|) && k < |blocks|
    ensures var before := Installed(img, lay, blocks, k);
            Installed(img, lay, blocks, k + 1) == before[blocks[k] := before[lay.start + k + 1]]
  {
    InstalledKeepsLog(img, lay, blocks, k);
  }

  /** Installing contents the home blocks already have changes nothing. */
  lemma {:induction false} InstallSame(img: Image, lay: Layout, blocks: seq<nat>, k: nat)
    requires Loggable(blocks, lay, |img|) && k <= |blocks|
    requires forall i :: 0 <= i < |blocks| ==> img[lay.start + i + 1] == img[blocks[i]]
    ensures Installed(img, lay, blocks, k) == img
  {
    if k != 0 {
      InstallSame(img, lay, blocks, k - 1);
      assert img[lay.start + (k - 1) + 1] == img[blocks[k - 1]];
    }
  }

  /** Only the listed blocks change. */
  lemma {:induction false} InstalledKeepsRest(img: Image, lay: Layout, blocks: seq<nat>, k: nat, blk: nat)
    requires Loggable(blocks, lay, |img|) && k <= |blocks| && blk < |img| && blk !in blocks[..k]
    ensures Installed(img, lay, blocks, k)[blk] == img[blk]
  {
    if k != 0 {
      assert blocks[..k] == blocks[..k - 1] + [blocks[k - 1]];
      InstalledKeepsRest(img, lay, blocks, k - 1, blk);
    }
  }

  /** Re-doing an installation on top of a partial one changes nothing: what the full pass
      writes depends only on the log area. */
  lemma {:induction false} InstallAgain(img: Image, lay: Layout, blocks: seq<nat>, k: nat, n: nat, blk: nat)
    requires Loggable(blocks, lay, |img|) && k <= |blocks| && n <= |blocks| && blk < |img|
    ensures blk in blocks[..n] ==>
              Installed(Installed(img, lay, blocks, k), lay, blocks, n)[blk] == Installed(img, lay, blocks, n)[blk]
    ensures blk !in blocks[..n] ==>
              Installed(Installed(img, lay, blocks, k), lay, blocks, n)[blk] == Installed(img, lay, blocks, k)[blk]
  {
    if n != 0 {
      assert blocks[..n] == blocks[..n - 1] + [blocks[n - 1]];
      InstallAgain(img, lay, blocks, k, n - 1, blk);
      InstalledKeepsLog(img, lay, blocks, k);
    }
  }

  lemma InstallIsIdempotent(img: Image, lay: Layout, blocks: seq<nat>, k: nat)
    requires Loggable(blocks, lay, |img|) && k <= |blocks|
    ensures Installed(Installed(img, lay, blocks, k), lay, blocks, |blocks|) == Installed(img, lay, blocks, |blocks|)
  {
    var n := |blocks|;
    assert blocks[..n] == blocks;
    forall blk | 0 <= blk < |img|
      ensures Installed(Installed(img, lay, blocks, k), lay, blocks, n)[blk] == Installed(img, lay, blocks, n)[blk]
    {
      InstallAgain(img, lay, blocks, k, n, blk);
      if blk !in blocks {
        assert blk !in blocks[..k];
        InstalledKeepsRest(img, lay, blocks, k, blk);
        InstalledKeepsRest(img, lay, blocks, n, blk);
      }
    }
  }

  ghost function InstallImages(img: Image, lay: Layout, blocks: seq<nat>): (imgs: seq<Image>)
    requires Loggable(blocks, lay, |img|)
    ensures |imgs| == |blocks|
  {
    seq(|blocks|, k requires 0 <= k < |blocks| => Installed(img, lay, blocks, k + 1))
  }

  ghost function ClearImages(img: Image, lay: Layout, blocks: seq<nat>): (imgs: seq<Image>)
    requires Loggable(blocks, lay, |img|)
    ensures |imgs| == |blocks| + 1
  {
    InstallImages(img, lay, blocks) + [Cleared(img, lay, blocks)]
  }

  /** Every image recover_from_log leaves behind. */
  ghost function RecoveryImages(img: Image, lay: Layout): seq<Image>
    requires Sound(img, lay)
  {
    ClearImages(img, lay, Head(img[lay.start]))
  }

  /** A recovery stopped anywhere leaves a disk that recovers to the same disk. */
  lemma RecoveryIsRestartable(img: Image, lay: Layout, j: nat)
    requires Sound(img, lay) && j < |RecoveryImages(img, lay)|
    ensures Sound(RecoveryImages(img, lay)[j], lay)
    ensures SameHome(Recovered(RecoveryImages(img, lay)[j], lay), Recovered(img, lay), lay)
  {
    var blocks := Head(img[lay.start]);
    if j < |blocks| {
      var mid := Installed(img, lay, blocks, j + 1);
      assert RecoveryImages(img, lay)[j] == mid;
      InstalledKeepsLog(img, lay, blocks, j + 1);
      InstallIsIdempotent(img, lay, blocks, j + 1);
    } else {
      EncodedWords(img[lay.start], [], 0);
      EncodedWords(Recovered(img, lay)[lay.start], [], 0);
    }
  }

  /** A finished recovery leaves an empty log, and another one changes no home block. */
  lemma RecoveredIsEmpty(img: Image, lay: Layout)
    requires Sound(img, lay)
    ensures GetWord(Recovered(img, lay)[lay.start], 0) == 0
    ensures Sound(Recovered(img, lay), lay) && SameHome(Recovered(Recovered(img, lay), lay), Recovered(img, lay), lay)
  {
    EncodedWords(img[lay.start], [], 0);
    EmptyLogRecovers(Recovered(img, lay), lay);
  }

  // ----- Committing -----

  /** The disk after write_log has copied the first k cached blocks behind the header. Nothing in it
      looks at the size of the log area. */
  ghost function Logged(img: Image, view: Image, lay: Layout, blocks: seq<nat>, k: nat): (r: Image)
    requires |view| == |img| && k <= |blocks| && lay.start + k < |img|
    requires forall i :: 0 <= i < |blocks| ==> blocks[i] < |img|
    ensures |r| == |img|
    ensures forall blk :: 0 <= blk < |img| ==>
              r[blk] == if lay.start < blk <= lay.start + k then view[blocks[blk - lay.start - 1]] else img[blk]
  {
    if k == 0 then img else Logged(img, view, lay, blocks, k - 1)[lay.start + k := view[blocks[k - 1]]]
  }

  ghost function LogImages(img: Image, view: Image, lay: Layout, blocks: seq<nat>): (imgs: seq<Image>)
    requires |view| == |img| && Loggable(blocks, lay, |img|)
    ensures |imgs| == |blocks|
  {
    seq(|blocks|, k requires 0 <= k < |blocks| => Logged(img, view, lay, blocks, k + 1))
  }

  /** The disk at the commit point: the log is complete and the header lists it. */
  ghost function Committed(img: Image, view: Image, lay: Layout, blocks: seq<nat>): (r: Image)
    requires |view| == |img| && Loggable(blocks, lay, |img|)
    ensures |r| == |img|
  {
    Logged(img, view, lay, blocks, |blocks|)[lay.start := Encoded(img[lay.start], blocks, |blocks|)]
  }

  /** The images up to and including the commit point. */
  ghost function SealImages(img: Image, view: Image, lay: Layout, blocks: seq<nat>): (imgs: seq<Image>)
    requires |view| == |img| && Loggable(blocks, lay, |img|)
    ensures |imgs| == |blocks| + 1
    ensures forall k :: 0 <= k < |blocks| ==> imgs[k] == Logged(img, view, lay, blocks, k + 1)
    ensures imgs[|blocks|] == Committed(img, view, lay, blocks)
  {
    LogImages(img, view, lay, blocks) + [Committed(img, view, lay, blocks)]
  }

  /** Every image commit leaves behind. */
  ghost function CommitImages(img: Image, view: Image, lay: Layout, blocks: seq<nat>): (imgs: seq<Image>)
    requires |view| == |img| && Loggable(blocks, lay, |img|)
    ensures |imgs| == if blocks == [] then 0 else 2 * |blocks| + 2
  {
    if blocks == [] then []
    else
      var c := Committed(img, view, lay, blocks);
      SealImages(img, view, lay, blocks) + ClearImages(c, lay, blocks)
  }

  /** The home blocks a committed transaction leaves: the cached contents of what it listed. */
  ghost function NewHome(img: Image, view: Image, blocks: seq<nat>): (r: Image)
    requires |view| == |img|
    ensures |r| == |img|
  {
    seq(|img|, blk requires 0 <= blk < |img| => if blk in blocks then view[blk] else img[blk])
  }

  /** Installing a committed log brings every listed block to its cached contents. */
  lemma {:induction false} InstalledCommit(img: Image, view: Image, lay: Layout, blocks: seq<nat>, k: nat, blk: nat)
    requires |view| == |img| && Loggable(blocks, lay, |img|) && k <= |blocks|
    requires blk < |img| && blk in blocks[..k]
    ensures Installed(Committed(img, view, lay, blocks), lay, blocks, k)[blk] == view[blk]
  {
    assert blocks[..k] == blocks[..k - 1] + [blocks[k - 1]];
    if blk != blocks[k - 1] {
      InstalledCommit(img, view, lay, blocks, k - 1, blk);
    }
  }

  lemma CommittedRecovers(img: Image, view: Image, lay: Layout, blocks: seq<nat>)
    requires |view| == |img| && Loggable(blocks, lay, |img|)
    ensures Sound(Committed(img, view, lay, blocks), lay)
    ensures SameHome(Recovered(Committed(img, view, lay, blocks), lay), NewHome(img, view, blocks), lay)
  {
    var c := Committed(img, view, lay, blocks);
    HeadRoundTrip(img[lay.start], blocks);
    var n := |blocks|;
    assert blocks[..n] == blocks;
    forall blk | 0 <= blk < |img| && !lay.InLog(blk)
      ensures Installed(c, lay, blocks, n)[blk] == NewHome(img, view, blocks)[blk]
    {
      if blk in blocks {
        InstalledCommit(img, view, lay, blocks, n, blk);
      } else {
        InstalledKeepsRest(c, lay, blocks, n, blk);
      }
    }
  }

  /** A commit that runs to its end leaves the new home blocks and an empty header. */
  lemma CommitFinishes(img: Image, view: Image, lay: Layout, blocks: seq<nat>)
    requires |view| == |img| && Loggable(blocks, lay, |img|)
    ensures var done := Cleared(Committed(img, view, lay, blocks), lay, blocks);
            GetWord(done[lay.start], 0) == 0 && SameHome(done, NewHome(img, view, blocks), lay)
  {
    HeadRoundTrip(img[lay.start], blocks);
    CommittedRecovers(img, view, lay, blocks);
    EncodedWords(Committed(img, view, lay, blocks)[lay.start], [], 0);
  }

  /** An image whose header lists nothing recovers to itself. */
  lemma EmptyLogRecovers(img: Image, lay: Layout)
    requires 0 < lay.size && lay.start + lay.size <= |img| <= 0x1_0000_0000 && GetWord(img[lay.start], 0) == 0
    ensures Sound(img, lay) && SameHome(Recovered(img, lay), img, lay)
  {
    assert Head(img[lay.start]) == [];
  }

  lemma BeforeCommitPoint(img: Image, view: Image, lay: Layout, blocks: seq<nat>, k: nat)
    requires |view| == |img| && Loggable(blocks, lay, |img|) && k <= |blocks|
    requires GetWord(img[lay.start], 0) == 0
    ensures var crashed := Logged(img, view, lay, blocks, k);
            SameHome(crashed, img, lay) && Sound(crashed, lay) && SameHome(Recovered(crashed, lay), img, lay)
  {
    EmptyLogRecovers(Logged(img, view, lay, blocks, k), lay);
  }

  lemma AfterCommitPoint(img: Image, view: Image, lay: Layout, blocks: seq<nat>, i: nat)
    requires |view| == |img| && Loggable(blocks, lay, |img|) && i <= |blocks|
    ensures var crashed := ClearImages(Committed(img, view, lay, blocks), lay, blocks)[i];
            Sound(crashed, lay) && SameHome(Recovered(crashed, lay), NewHome(img, view, blocks), lay)
  {
    hide Recovered, Cleared, Installed, Encoded, NewHome;
    var c := Committed(img, view, lay, blocks);
    CommittedRecovers(img, view, lay, blocks);
    HeadRoundTrip(img[lay.start], blocks);
    RecoveryIsRestartable(c, lay, i);
  }

  /** Commit is atomic: stop it after any block write and recover, and the home blocks are all
      old or all new, and all new exactly when the first write_head, write number |blocks|,
      reached the disk. */
  lemma CommitIsAtomic(img: Image, view: Image, lay: Layout, blocks: seq<nat>, j: nat)
    requires |view| == |img| && Loggable(blocks, lay, |img|) && blocks != []
    requires GetWord(img[lay.start], 0) == 0
    requires j < |CommitImages(img, view, lay, blocks)|
    ensures var crashed := CommitImages(img, view, lay, blocks)[j];
            && Sound(crashed, lay)
            && SameHome(Recovered(crashed, lay), if j < |blocks| then img else NewHome(img, view, blocks), lay)
  {
    hide Recovered, Cleared, Installed, Encoded, NewHome, Logged;
    if j < |blocks| {
      BeforeCommitPoint(img, view, lay, blocks, j + 1);
    } else if j == |blocks| {
      CommittedRecovers(img, view, lay, blocks);
    } else {
      AfterCommitPoint(img, view, lay, blocks, j - |blocks| - 1);
    }
  }

  /** Recovery crashed and restarted any number of times: each image is one that a recovery
      started on the image before it left behind, or that image itself. */
  ghost predicate CrashChain(chain: seq<Image>, lay: Layout)
  {
    && 0 < |chain|
    && forall i :: 0 < i < |chain| ==>
         || chain[i] == chain[i - 1]
         || (Sound(chain[i - 1], lay) && chain[i] in RecoveryImages(chain[i - 1], lay))
  }

  /** However often recovery is interrupted, the disk stays recoverable, and finishing
      recovery gives the same home blocks. */
  lemma {:induction false} CrashChainConverges(chain: seq<Image>, lay: Layout)
    requires CrashChain(chain, lay) && Sound(chain[0], lay)
    ensures Sound(chain[|chain| - 1], lay)
    ensures SameHome(Recovered(chain[|chain| - 1], lay), Recovered(chain[0], lay), lay)
  {
    var n := |chain|;
    if n > 1 {
      CrashChainConverges(chain[..n - 1], lay);
      if chain[n - 1] != chain[n - 2] {
        var imgs := RecoveryImages(chain[n - 2], lay);
        var j :| 0 <= j < |imgs| && imgs[j] == chain[n - 1];
        RecoveryIsRestartable(chain[n - 2], lay, j);
      }
    }
  }

  /** The whole story: a commit cut short after write j (or before its first write, j = -1),
      then any number of interrupted recoveries, then a finished one. */
  lemma CrashAtomicity(img: Image, view: Image, lay: Layout, blocks: seq<nat>, j: int, chain: seq<Image>)
    requires |view| == |img| && Loggable(blocks, lay, |img|) && blocks != []
    requires GetWord(img[lay.start], 0) == 0
    requires -1 <= j < |CommitImages(img, view, lay, blocks)|
    requires CrashChain(chain, lay)
    requires chain[0] == if j == -1 then img else CommitImages(img, view, lay, blocks)[j]
    ensures Sound(chain[|chain| - 1], lay)
    ensures SameHome(Recovered(chain[|chain| - 1], lay),
                     if j < |blocks| then img else NewHome(img, view, blocks), lay)
  {
    if j == -1 {
      EmptyLogRecovers(img, lay);
    } else {
      CommitIsAtomic(img, view, lay, blocks, j);
    }
    CrashChainConverges(chain, lay);
  }
}
