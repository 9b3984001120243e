/** Worked examples on small forests shaped like the editor's sample data. */
module ExamplesForest {
  import opened Wrappers
  import opened Tree
  import opened DroppableId
  import opened StreamField

  function Leaf(id: string): Block {
    Block(id, "title " + id, "Block type", true, [])
  }

  /** Moving the second of two root blocks up puts it first. */
  lemma MoveUpSecondRoot()
    ensures MoveUp([Leaf("0"), Leaf("1")], [1]) == [Leaf("1"), Leaf("0")]
  {
  }

  /** Duplicating the only root block gives two equal blocks. */
  lemma DuplicateOnlyRoot()
    ensures Duplicate([Leaf("0")], [0]) == [Leaf("0"), Leaf("0")]
  {
  }

  /** The children list of the second child of root block 3. */
  lemma NestedListId()
    ensures Encode([3, 1]) == "root-3-1"
    ensures Decode("root-3-1") == Some([3, 1])
    ensures Decode("root-") == Some([])
  {
    DecodeEncode([3, 1]);
    DecodeEncode([]);
  }
}
