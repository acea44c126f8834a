/** One input each for places where the code does less than its description says; the laws named in the comments give
    the exact conditions. */
module Shortfalls {
  import opened Bytes
  import opened EnvList
  import opened EnvStore
  import EnvLaws
  import opened MtdText
  import opened MtdParts
  import MtdRoundTrip
  import MtdPrinter
  import MtdTable
  import Onenand
  import Branch

  /** EnvLaws.SetChangesOneName: with a=1 in an environment of 7 bytes, setting a to 2345 deletes the old value and
      stores no new one. */
  lemma OverflowDeletes()
    ensures var vars := [Var([97], [49])];
      && Wf(vars) && |Image(vars)| <= 7
      && Set(vars, 7, [97], [[50, 51, 52, 53]], true, true) == Overflow([])
  {
    var vars, v := [Var([97], [49])], Var([97], [50, 51, 52, 53]);
    assert vars[1..] == [] && Remove(vars, 0) == [] && [v][1..] == [];
    assert Join([[50, 51, 52, 53]]) == v.value;
    assert Find(vars, [97]) == Some(0) && Without(vars, [97]) == [];
    assert [] + [v] == [v];
    assert |Encode([v])| == 7;
  }

  /** EnvLaws.GetEnvRSafeIff: two characters copied into two bytes are not terminated; one character copied into two
      bytes clears the byte behind them. */
  lemma CopyGoesWrong()
    ensures CopiedOut([1, 1, 1], [97, 98], 2) == [97, 98, 1]
    ensures CopiedOut([1, 1, 1], [97], 2) == [97, NUL, NUL]
  {
  }

  const CHIP: MtdId := MtdId(1, 0, 0x10_0000, "nor0", Some(Uniform(0x400)))

  /** MtdRoundTrip.RoundTrip: the printed form of a 1k partition is refused. */
  lemma SmallPartitionRefused()
    ensures var devs := [Dev(CHIP, [Part(0x400, 0, None, false)])];
      MtdRoundTrip.TableOk([CHIP], devs) && ParseMtdparts(HEADER + Body(devs), [CHIP]) == None
  {
    var devs := [Dev(CHIP, [Part(0x400, 0, None, false)])];
    assert ':' !in "nor0" && MtdRoundTrip.NoNulChar("nor0");
    MtdRoundTrip.RoundTrip([CHIP], devs);
  }

  /** MtdPrinter.ExtentInside: any table whose text fits exactly is written past the buffer's end. */
  lemma ExactFitOverruns(devs: seq<Dev>)
    requires devs != []
    ensures MtdPrinter.Extent(devs, |Body(devs)| + 1) > |Body(devs)| + 1
  {
    hide Body, MtdPrinter.Extent, MtdPrinter.BodyPieces, MtdPrinter.Printed;
    MtdPrinter.ExtentInside(devs, |Body(devs)| + 1);
  }

  /** MtdTable.DeleteIndex: of three partitions at one offset with the first current, deleting the last leaves index
      255; with the second current, it leaves the first current. */
  lemma DeletedBehind(a: MtdTable.PartInfo, b: MtdTable.PartInfo, c: MtdTable.PartInfo)
    requires a.info.offset == b.info.offset == c.info.offset
    ensures MtdTable.IndexAfterDelete([a, b, c], 0, 2) == 255
    ensures MtdTable.IndexAfterDelete([a, b, c], 1, 2) == 0
  {
  }

  /** Onenand.SecondWriteReadable: on a chip whose first block is bad, a write of one block at 0 goes to block 1 and
      the next one to block 2; a reader that starts at 1 finds the first one's data. */
  lemma SecondWriteShifted()
    ensures var c := Onenand.Chip(4, 1, o => o == 0, _ => false, _ => false);
      var st := Onenand.State(map[], 0, 0);
      var after := Onenand.Written(c, st, 0, [7]);
      && Onenand.Fits(c, st, 0, 1)
      && after.skipOfs == 1 && Onenand.Start(after, 1) == 2 && after.content == map[1 := [7]]
      && Onenand.Slots(c, c.Unreadable, 1, 1) == [1]
  {
    var c := Onenand.Chip(4, 1, o => o == 0, _ => false, _ => false);
    assert Onenand.Slots(c, c.Unwritable, 0, 1) == Onenand.Slots(c, c.Unwritable, 1, 1) == [1];
    assert Onenand.Stored(c, map[], [1], [7]) == map[1 := [7]] by {
      assert [7][..1] == [7] && [1][1..] == [];
    }
  }

  /** Branch.TakenIs: "branch always" with the first z bit set is taken by the ISA and not by a single step. */
  lemma ZBitNotFollowed(ctr: word, cr: word)
    ensures Branch.IsaTaken(28, 0, ctr, cr) && !Branch.Taken(28, 0, ctr, cr)
  {
  }
}
