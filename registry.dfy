/** The first loop of `parse_md_files`: one `TreeNode` per Markdown file,
    keyed by the file's stem, holding the parent ids its parents section
    names (not yet resolved), added to the tree with `add_node`.

    The directory listing and the file reads are not modelled: the input is
    the sequence of (stem, text) pairs the glob would yield, in its order. */
module NoteFiles {
  import opened Common
  import opened ParentsParser
  import opened FamilyGraph

  /** One Markdown file: its stem and its text. */
  datatype MdFile = MdFile(stem: string, content: string)

  /** `TreeNode(person_id, person_id)` with the parsed ids stored in
      `mother` and `father`: no children yet, generation -1. The ids are
      trimmed alias heads, and a note without a parents header names none. */
  function FileNode(f: MdFile): (n: Node)
    ensures n.id == f.stem && n.name == f.stem && n.children == [] && n.generation == Unassigned
    ensures n.mother == Parse(f.content).mother && n.father == Parse(f.content).father
    ensures n.mother.Some? ==> WellFormedId(n.mother.value)
    ensures n.father.Some? ==> WellFormedId(n.father.value)
    ensures !Occurs(f.content, Header) ==> n.mother.None? && n.father.None?
  {
    var p := Parse(f.content);
    Node(f.stem, f.stem, p.mother, p.father, [], Unassigned)
  }

  /** The stems, one per file, in glob order. */
  function Stems(files: seq<MdFile>): (r: seq<string>)
    ensures |r| == |files| && forall i :: 0 <= i < |files| ==> r[i] == files[i].stem
  {
    seq(|files|, i requires 0 <= i < |files| => files[i].stem)
  }

  /** The dictionary after `add_node` for every file in order: a later file
      with the same stem replaces the earlier node. */
  function Registry(files: seq<MdFile>): Nodes
  {
    if files == [] then map[]
    else Registry(files[..|files| - 1])[files[|files| - 1].stem := FileNode(files[|files| - 1])]
  }

  /** Every file yields a node under its stem and nothing else is added;
      each node has its key as id and as name, no children and no
      generation yet. */
  lemma {:induction false} RegistryShape(files: seq<MdFile>)
    ensures forall k :: k in Registry(files) <==> k in Stems(files)
    ensures forall k :: k in Registry(files) ==>
      Registry(files)[k].id == k && Registry(files)[k].name == k &&
      Registry(files)[k].children == [] && Registry(files)[k].generation == Unassigned
  {
    if files != [] {
      var init := files[..|files| - 1];
      RegistryShape(init);
      assert Stems(files) == Stems(init) + [files[|files| - 1].stem];
    }
  }

  /** The last file with a given stem decides that stem's node. */
  lemma {:induction false} RegistryLastWins(files: seq<MdFile>, i: nat)
    requires i < |files|
    requires forall j :: i < j < |files| ==> files[j].stem != files[i].stem
    ensures files[i].stem in Registry(files) && Registry(files)[files[i].stem] == FileNode(files[i])
  {
    if i < |files| - 1 {
      RegistryLastWins(files[..|files| - 1], i);
    }
  }

  /** One more file: the dictionary gets its node, and its stem joins the
      key order unless already there. */
  lemma RegistrySnoc(done: seq<MdFile>, f: MdFile)
    ensures Registry(done + [f]) == Registry(done)[f.stem := FileNode(f)]
    ensures FirstOccurrences(Stems(done + [f])) ==
      if f.stem in Registry(done) then FirstOccurrences(Stems(done))
      else FirstOccurrences(Stems(done)) + [f.stem]
  {
    RegistryShape(done);
    assert (done + [f])[..|done|] == done;
    assert Stems(done + [f])[..|done|] == Stems(done);
  }
}
