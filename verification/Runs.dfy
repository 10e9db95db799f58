/** Operations on nodes, one after the other: what a caller sees of whole runs. */
module Runs {
  import opened Bytes
  import opened Json
  import opened Numbers
  import opened Heap
  import opened Compare
  import Lists
  import Duplicate
  import NodeCompare
  import Parser
  import ParseSpec
  import Printer
  import PrintSpec
  import RoundTrip

  lemma {:induction false} CopyRow(c: Shape, t: Tree, tag: Duplicate.Label)
    requires Duplicate.Finished(c, t, tag)
    ensures Holding(c, t) && AllWired([c]) && AllDistinct([c]) && First([c]) == c.node && AllOwned([c]) == Owned(c)
  {
    Lists.ItemWired(c, t);
    Lists.RowOfOne(c);
  }

  /**
   * cJSON_Duplicate, cJSON_Compare of the tree and its copy, and cJSON_Delete of the copy:
   * they are equal exactly when the tree is consistent, and no block is gained or lost.
   */
  method CompareWithCopy(item: Node, cs: bool, mem: Memory, ghost s: Shape, ghost t: Tree)
    returns (copied: bool, equal: bool)
    requires item == s.node && Lists.Item(s, t) && Owned(s) <= mem.live && Whole(t)
    modifies mem
    ensures copied || mem.failures > old(mem.failures)
    ensures copied ==> (equal <==> Consistent(t, cs))
    ensures mem.live == old(mem.live) && Lists.Item(s, t)
  {
    hide Holding, Owned, AllOwned, AllWired, AllDistinct, Consistent, Same, Whole;
    hide Duplicate.Finished, Duplicate.LabelOf;
    hide Lists.Item;
    OwnParts(s);
    var copy;
    ghost var c;
    copy, c := Duplicate.Duplicate(item, true, mem, s, t);
    if copy == null {
      return false, false;
    }
    CopyRow(c, t, Duplicate.LabelOf(s.name));
    Duplicate.ItemParts(s, t);
    OwnParts(c);
    equal := NodeCompare.CompareTrees(item, copy, cs, mem, s, t, c, t);
    CopyIsSame(t, cs);
    Delete(copy, mem, [c]);
    copied := true;
  }

  /**
   * cJSON_Print and cJSON_ParseWithLengthOpts of what it printed, which is then freed: a
   * second tree that holds the same value, in new blocks that are all that is gained.
   */
  method Reprint(item: Node, format: bool, canResize: bool, mem: Memory, ghost s: Shape, ghost t: Tree)
    returns (again: Node?, ghost ss: seq<Shape>)
    requires item == s.node && Holding(s, t) && Owned(s) <= mem.live && Plain(t) && NestsWithin(t, NESTING_LIMIT)
    modifies mem
    ensures again == First(ss) && AllWired(ss) && AllDistinct(ss) && fresh(AllOwned(ss))
    ensures mem.live == old(mem.live) + AllOwned(ss) && Holding(s, t)
    ensures if again != null then |ss| == 1 && Holding(ss[0], t)
      else |PrintSpec.Print(t, format, 0)| + 2 > INT_MAX || mem.failures > old(mem.failures)
  {
    hide Holding, Owned, AllOwned, AllWired, AllDistinct, Plain, NestsWithin, ParseSpec.ParseText, PrintSpec.Print,
      Parser.Stored;
    ss := [];
    OwnParts(s);
    Parser.NoRow();
    var printed := Printer.PrintText(item, format, canResize, mem, s, t);
    if printed == null {
      return null, [];
    }
    RoundTrip.PrintParse(t, format);
    var content := printed[..];
    TextTerminated(t, format);
    var end;
    again, end, ss := Parser.ParseWithLengthOpts(content, true, mem);
    if again != null {
      Parser.StoredParts(again, ss[0], ParseSpec.ParseText(content, true));
      OwnParts(ss[0]);
      OwnedByAll(ss, 0);
    }
    mem.Free(printed);
  }

  lemma {:induction false} TextTerminated(t: Tree, format: bool)
    ensures ParseSpec.Terminated(PrintSpec.Print(t, format, 0) + [NUL])
  {
    hide PrintSpec.Print;
  }
}
