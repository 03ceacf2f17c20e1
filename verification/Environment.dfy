/** The environment block: every entry of the variable table, copied into a multi-string by Apply. */
module Environment {
  import opened Words
  import opened Keys
  import opened Chains
  import opened MapSpec
  import HashTables
  import opened MultiSz

  /** The name and the value of each record, as C strings. */
  datatype Variables = Variables(name: Record -> WString, value: Record -> WString) {
    function Text(r: Record): WString {
      name(r) + value(r)
    }
  }

  ghost predicate CStrings(vars: Variables) {
    forall r: Record :: NulFree(vars.Text(r))
  }

  function Texts(vars: Variables, rs: seq<Record>): seq<WString> {
    if rs == [] then [] else Texts(vars, rs[..|rs| - 1]) + AsList(vars.Text(rs[|rs| - 1]))
  }

  function Size(vars: Variables, rs: seq<Record>): nat {
    if rs == [] then 0 else Size(vars, rs[..|rs| - 1]) + |vars.Text(rs[|rs| - 1])| + 1
  }

  lemma {:induction false} TextsAre(vars: Variables, rs: seq<Record>, t: WString)
    ensures t in Texts(vars, rs) <==> exists k :: 0 <= k < |rs| && t == vars.Text(rs[k]) != []
  {
    if rs != [] {
      TextsAre(vars, rs[..|rs| - 1], t);
    }
  }

  lemma {:induction false} TextsCount(vars: Variables, rs: seq<Record>)
    ensures |Texts(vars, rs)| <= |rs|
    ensures |Texts(vars, rs)| == |rs| <==> forall k | 0 <= k < |rs| :: vars.Text(rs[k]) != []
  {
    if rs != [] {
      TextsCount(vars, rs[..|rs| - 1]);
    }
  }

  /** The whole block of a table can be written behind the strings that are there. */
  ghost predicate Room(vars: Variables, list: seq<WString>, rs: seq<Record>) {
    Size(vars, rs) < 0x8000_0000 && 2 * (|Body(list)| + Size(vars, rs)) + 4 + STR_SLOP <= MAXDWORD
  }

  /** The strings of the entries that were kept. */
  function Kept(vars: Variables, rs: seq<Record>, kept: seq<bool>): seq<WString>
    requires |kept| == |rs|
  {
    if rs == [] then []
    else
      var n := |rs| - 1;
      Kept(vars, rs[..n], kept[..n]) + if kept[n] then AsList(Clipped(vars.Text(rs[n]))) else []
  }

  /** Appending the text of r to the list might exceed 32 bits. */
  ghost predicate Tight(vars: Variables, list: seq<WString>, r: Record) {
    2 * (|Body(list)| + |Clipped(vars.Text(r))|) + 4 + STR_SLOP > MAXDWORD
  }

  /** Each entry that was dropped came when the list was too long for it. */
  ghost predicate DroppedTight(vars: Variables, list: seq<WString>, rs: seq<Record>, kept: seq<bool>)
    requires |kept| == |rs|
  {
    forall k | 0 <= k < |rs| && !kept[k] :: Tight(vars, list + Kept(vars, rs[..k], kept[..k]), rs[k])
  }

  /** Apply with CopyToMultiSz: the block gets one string for each entry of the table, but those, without a
      notice, for which it is too long. */
  method CopyToBlock(table: HashTables.HashTable, vars: Variables, block: Multisz)
    returns (visited: seq<Record>, ghost kept: seq<bool>)
    requires table.Valid() && block.Valid() && CStrings(vars)
    modifies block, block.buffer
    ensures block.Valid()
    ensures HashTables.HashTable.Lists(visited, table.stored)
    ensures |kept| == |visited| && block.list == old(block.list) + Kept(vars, visited, kept)
    ensures DroppedTight(vars, old(block.list), visited, kept)
    ensures Room(vars, old(block.list), visited) ==> block.list == old(block.list) + Texts(vars, visited)
  {
    hide *;
    visited := table.Apply();
    ghost var before := block.list;
    kept := CopyEntries(visited, vars, block);
    if Room(vars, before, visited) {
      AllKept(vars, before, visited, kept);
    }
  }

  method CopyEntries(rs: seq<Record>, vars: Variables, block: Multisz) returns (ghost kept: seq<bool>)
    requires block.Valid() && CStrings(vars)
    modifies block, block.buffer
    ensures block.Valid()
    ensures |kept| == |rs| && block.list == old(block.list) + Kept(vars, rs, kept)
    ensures DroppedTight(vars, old(block.list), rs, kept)
  {
    hide *;
    ghost var before := block.list;
    kept := [];
    KeptStart(vars, before, rs);
    for i := 0 to |rs|
      invariant block.Valid() && (block.buffer == old(block.buffer) || fresh(block.buffer))
      invariant |kept| == i && block.list == before + Kept(vars, rs[..i], kept)
      invariant DroppedTight(vars, before, rs[..i], kept)
    {
      IsCString(vars, rs[i]);
      ghost var list := block.list;
      var ok := block.Append(vars.Text(rs[i]));
      if !ok {
        RefusedTight(vars, list, rs[i]);
      }
      KeptStep(vars, before, rs, i, kept, ok, list);
      kept := kept + [ok];
    }
    assert rs[..|rs|] == rs;
  }

  lemma RefusedTight(vars: Variables, list: seq<WString>, r: Record)
    requires !(2 * (|Body(list)| + |Clipped(vars.Text(r))|) + 4 + STR_SLOP <= MAXDWORD)
    ensures Tight(vars, list, r)
  {
  }

  lemma KeptStart(vars: Variables, list: seq<WString>, rs: seq<Record>)
    ensures rs[..0] == [] && list + Kept(vars, [], []) == list
    ensures DroppedTight(vars, list, [], [])
  {
  }

  lemma KeptStep(vars: Variables, before: seq<WString>, rs: seq<Record>, i: nat, kept: seq<bool>, ok: bool,
                 list: seq<WString>)
    requires i < |rs| && |kept| == i
    requires list == before + Kept(vars, rs[..i], kept)
    requires DroppedTight(vars, before, rs[..i], kept) && (ok || Tight(vars, list, rs[i]))
    ensures before + Kept(vars, rs[..i + 1], kept + [ok])
         == if ok then list + AsList(Clipped(vars.Text(rs[i]))) else list
    ensures DroppedTight(vars, before, rs[..i + 1], kept + [ok])
  {
    hide Tight, Body, AsList, Clipped;
    assert rs[..i + 1][..i] == rs[..i] && (kept + [ok])[..i] == kept;
    forall k | 0 <= k < i && !kept[k]
      ensures Tight(vars, before + Kept(vars, rs[..i + 1][..k], (kept + [ok])[..k]), rs[k])
    {
      assert rs[..i + 1][..k] == rs[..i][..k] && (kept + [ok])[..k] == kept[..k];
      assert rs[..i][k] == rs[k];
    }
  }

  /** Where there is room for all texts, none is dropped or clipped. */
  lemma {:induction false} AllKept(vars: Variables, list: seq<WString>, rs: seq<Record>, kept: seq<bool>)
    requires |kept| == |rs| && Room(vars, list, rs) && DroppedTight(vars, list, rs, kept)
    ensures Kept(vars, rs, kept) == Texts(vars, rs)
    ensures |Body(list + Kept(vars, rs, kept))| <= |Body(list)| + Size(vars, rs)
  {
    hide Tight, Body, AsList, Clipped;
    if rs == [] {
      assert list + [] == list;
    } else {
      var n := |rs| - 1;
      var text := vars.Text(rs[n]);
      PrefixTight(vars, list, rs, kept);
      AllKept(vars, list, rs[..n], kept[..n]);
      ClippedIff(text);
      FitsLoosely(vars, list, rs, kept);
      var front := list + Kept(vars, rs[..n], kept[..n]);
      BodyGrows(front, text);
      assert list + Kept(vars, rs, kept) == front + AsList(text);
    }
  }

  lemma PrefixTight(vars: Variables, list: seq<WString>, rs: seq<Record>, kept: seq<bool>)
    requires |kept| == |rs| > 0 && DroppedTight(vars, list, rs, kept)
    ensures DroppedTight(vars, list, rs[..|rs| - 1], kept[..|rs| - 1])
  {
    hide Tight, Kept;
    var n := |rs| - 1;
    forall k | 0 <= k < n && !kept[k]
      ensures Tight(vars, list + Kept(vars, rs[..n][..k], kept[..n][..k]), rs[..n][k])
    {
      assert rs[..n][..k] == rs[..k] && kept[..n][..k] == kept[..k];
    }
  }

  lemma FitsLoosely(vars: Variables, list: seq<WString>, rs: seq<Record>, kept: seq<bool>)
    requires |kept| == |rs| > 0 && Room(vars, list, rs) && DroppedTight(vars, list, rs, kept)
    requires |Body(list + Kept(vars, rs[..|rs| - 1], kept[..|rs| - 1]))| <= |Body(list)| + Size(vars, rs[..|rs| - 1])
    ensures kept[|rs| - 1]
  {
    hide Body, Kept;
  }

  lemma IsCString(vars: Variables, r: Record)
    requires CStrings(vars)
    ensures NulFree(vars.Text(r))
  {
  }

  lemma OneTextPerEntry(vars: Variables, visited: seq<Record>, stored: map<Key, Record>)
    requires HashTables.HashTable.Lists(visited, stored)
    ensures |Texts(vars, visited)| <= |stored|
    ensures |Texts(vars, visited)| == |stored| <==> forall p | p in stored :: vars.Text(stored[p]) != []
    ensures forall t :: t in Texts(vars, visited) <==> exists p :: p in stored && t == vars.Text(stored[p]) != []
  {
    TextsCount(vars, visited);
    forall p | p in stored ensures exists k :: 0 <= k < |visited| && visited[k] == stored[p] {
      assert stored[p] in stored.Values;
    }
    forall k | 0 <= k < |visited| ensures exists p :: p in stored && visited[k] == stored[p] {
      assert visited[k] in visited;
    }
    forall t ensures t in Texts(vars, visited) <==> exists p :: p in stored && t == vars.Text(stored[p]) != [] {
      TextsAre(vars, visited, t);
    }
  }

  /** Each entry whose name and value are not both empty has its text in the block, and no text is there
      without an entry: there are as many as entries exactly when no entry is empty. */
  lemma OneStringPerEntry(vars: Variables, visited: seq<Record>, stored: map<Key, Record>)
    requires HashTables.HashTable.Lists(visited, stored)
    ensures |Texts(vars, visited)| <= |stored|
    ensures |Texts(vars, visited)| == |stored| <==>
            forall p | p in stored :: vars.name(stored[p]) + vars.value(stored[p]) != []
    ensures forall t :: t in Texts(vars, visited) <==>
              exists p :: p in stored && t == vars.name(stored[p]) + vars.value(stored[p]) != []
  {
    OneTextPerEntry(vars, visited, stored);
    hide HashTables.HashTable.Lists, Texts;
  }
}
