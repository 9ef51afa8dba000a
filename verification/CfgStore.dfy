/** The configuration store as the program keeps it: a singly linked list of nodes,
    walked by pointer, prepended to, overwritten and spliced in place. Each
    operation is proved to do to the list what CfgText says it does to the entries. */
module CfgStore {
  import opened Prelude
  import opened CfgText

  class CfgNode {
    var key: string
    var value: string
    var next: CfgNode?

    constructor (key: string, value: string, next: CfgNode?)
      ensures this.key == key && this.value == value && this.next == next
    {
      this.key, this.value, this.next := key, value, next;
    }
  }

  ghost function Nth(nodes: seq<CfgNode>, i: nat): CfgNode? {
    if i < |nodes| then nodes[i] else null
  }

  // The nodes, all different, have the keys and values of the entries.
  ghost predicate Hold(nodes: seq<CfgNode>, entries: seq<Entry>)
    reads nodes
  {
    && |entries| == |nodes|
    && (forall i :: 0 <= i < |nodes| ==> nodes[i].key == entries[i].key && nodes[i].value == entries[i].value)
    && (forall i, j :: 0 <= i < j < |nodes| ==> nodes[i] != nodes[j])
  }

  // Once the node before the i-th points past it, the others form a list.
  lemma Spliced(nodes: seq<CfgNode>, entries: seq<Entry>, i: nat)
    requires Hold(nodes, entries) && i < |nodes|
    requires forall j {:trigger nodes[j].next} :: 0 <= j < |nodes| && j != i ==>
               nodes[j].next == Nth(nodes, if j + 1 == i then i + 1 else j + 1)
    ensures var rest := nodes[..i] + nodes[i + 1..];
            && Hold(rest, entries[..i] + entries[i + 1..])
            && forall j {:trigger rest[j].next} :: 0 <= j < |rest| ==> rest[j].next == Nth(rest, j + 1)
  {
    var rest, others := nodes[..i] + nodes[i + 1..], entries[..i] + entries[i + 1..];
    forall j | 0 <= j < |rest|
      ensures rest[j].next == Nth(rest, j + 1) && rest[j].key == others[j].key && rest[j].value == others[j].value
    {
      var k := if j < i then j else j + 1;
      assert rest[j] == nodes[k] && others[j] == entries[k] && nodes[k].next == nodes[k].next;
    }
  }

  lemma LinePartsAreCStrings(line: string)
    ensures var content := Before(Before(line, '\0'), '#');
            '=' in content ==>
              var key := Before(content, '=');
              IsCString(key) && IsCString(content[|key| + 1..])
  {}

  class CfgStruct {
    var head: CfgNode?
    ghost var nodes: seq<CfgNode>
    ghost var entries: seq<Entry>

    ghost predicate Valid()
      reads this, nodes
    {
      WellFormed(entries) && Chained()
    }

    // The acyclic list from head is nodes, and nodes hold entries.
    ghost predicate Chained()
      reads this, nodes
    {
      && head == Nth(nodes, 0) && Hold(nodes, entries)
      && (forall i {:trigger nodes[i].next} :: 0 <= i < |nodes| ==> nodes[i].next == Nth(nodes, i + 1))
    }

    constructor ()
      ensures Valid() && entries == [] && nodes == []
    {
      head, nodes, entries := null, [], [];
    }

    // The walk that get, set and delete share: the node with the trimmed key, and
    // the node before it.
    method Search(tkey: string) returns (prev: CfgNode?, temp: CfgNode?, ghost i: nat)
      requires Chained()
      ensures i == Find(entries, tkey) && temp == Nth(nodes, i)
      ensures prev == if i == 0 then null else nodes[i - 1]
    {
      prev, temp, i := null, head, 0;
      while temp != null && temp.key != tkey
        invariant 0 <= i <= |nodes| && temp == Nth(nodes, i)
        invariant prev == if i == 0 then null else nodes[i - 1]
        invariant Find(entries[i..], tkey) + i == Find(entries, tkey)
        decreases |nodes| - i
      {
        assert entries[i..][1..] == entries[i + 1..];
        prev := temp;
        temp := temp.next;
        i := i + 1;
      }
    }

    method Get(key: string) returns (value: Option<string>)
      requires Valid()
      ensures value == CfgText.Get(entries, key)
    {
      var tkey := CfgTrim(key);
      var prev, temp, i := Search(tkey);
      value := if temp != null then Some(temp.value) else None;
    }

    method Overwrite(temp: CfgNode, tvalue: string, ghost i: nat)
      requires Chained() && i < |nodes| && temp == nodes[i]
      modifies this`entries, temp`value
      ensures Chained() && entries == old(entries)[i := Entry(old(entries)[i].key, tvalue)]
    {
      temp.value := tvalue;
      entries := entries[i := Entry(entries[i].key, tvalue)];
    }

    method Prepend(tkey: string, tvalue: string)
      requires Chained()
      modifies this
      ensures Chained() && entries == [Entry(tkey, tvalue)] + old(entries)
      ensures |nodes| == |old(nodes)| + 1 && fresh(nodes[0]) && nodes[1..] == old(nodes)
    {
      var temp := new CfgNode(tkey, tvalue, head);
      head := temp;
      nodes := [temp] + nodes;
      entries := [Entry(tkey, tvalue)] + entries;
      assert forall i :: 0 < i < |nodes| ==> nodes[i] == old(nodes)[i - 1] && entries[i] == old(entries)[i - 1];
    }

    method Put(tkey: string, tvalue: string)
      requires Chained()
      modifies this, nodes
      ensures Chained()
      ensures entries == var i := Find(old(entries), tkey);
                         if i < |old(entries)| then old(entries)[i := Entry(tkey, tvalue)]
                         else [Entry(tkey, tvalue)] + old(entries)
      ensures forall i :: 0 <= i < |nodes| ==> nodes[i] in old(nodes) || fresh(nodes[i])
    {
      var prev, temp, i := Search(tkey);
      if temp != null {
        Overwrite(temp, tvalue, i);
      } else {
        Prepend(tkey, tvalue);
      }
    }

    method Set(key: string, value: string)
      requires Valid() && IsCString(key) && IsCString(value)
      modifies this, nodes
      ensures Valid() && entries == CfgText.Set(old(entries), key, value)
      ensures forall i :: 0 <= i < |nodes| ==> nodes[i] in old(nodes) || fresh(nodes[i])
    {
      SetKeepsWellFormed(entries, key, value);
      var tkey := CfgTrim(key);
      if tkey == "" {
        return;
      }
      var tvalue := CfgTrim(value);
      Put(tkey, tvalue);
    }

    method Splice(prev: CfgNode?, temp: CfgNode, ghost i: nat)
      requires Chained() && i < |nodes| && temp == nodes[i]
      requires prev == if i == 0 then null else nodes[i - 1]
      modifies this, prev
      ensures Chained()
      ensures nodes == old(nodes)[..i] + old(nodes)[i + 1..]
      ensures entries == old(entries)[..i] + old(entries)[i + 1..]
    {
      if prev == null {
        head := temp.next;
      } else {
        prev.next := temp.next;
      }
      Spliced(nodes, entries, i);
      nodes := nodes[..i] + nodes[i + 1..];
      entries := entries[..i] + entries[i + 1..];
    }

    method Drop(tkey: string)
      requires Chained()
      modifies this, nodes
      ensures Chained()
      ensures entries == var i := Find(old(entries), tkey);
                         if i < |old(entries)| then old(entries)[..i] + old(entries)[i + 1..] else old(entries)
      ensures nodes == var i := Find(old(entries), tkey);
                       if i < |old(nodes)| then old(nodes)[..i] + old(nodes)[i + 1..] else old(nodes)
    {
      var prev, temp, i := Search(tkey);
      if temp != null {
        Splice(prev, temp, i);
      }
    }

    method Delete(key: string)
      requires Valid()
      modifies this, nodes
      ensures Valid() && entries == CfgText.Delete(old(entries), key)
      ensures nodes == var i := Find(old(entries), Trim(key));
                       if i < |old(nodes)| then old(nodes)[..i] + old(nodes)[i + 1..] else old(nodes)
    {
      DeleteKeepsWellFormed(entries, key);
      var tkey := CfgTrim(key);
      Drop(tkey);
    }

    method LoadLine(line: string)
      requires Valid()
      modifies this, nodes
      ensures Valid() && entries == CfgText.LoadLine(old(entries), line)
      ensures forall i :: 0 <= i < |nodes| ==> nodes[i] in old(nodes) || fresh(nodes[i])
    {
      var buffer := Before(Before(line, '\0'), '#');
      LinePartsAreCStrings(line);
      if '=' in buffer {
        var key := Before(buffer, '=');
        Set(key, buffer[|key| + 1..]);
      }
    }

    // cfg_load, from the bytes of the file.
    method Load(text: string)
      requires Valid()
      modifies this, nodes
      ensures Valid() && entries == CfgText.Load(old(entries), text)
    {
      var rest := text;
      while rest != ""
        invariant Valid() && CfgText.Load(entries, rest) == CfgText.Load(old(entries), text)
        invariant forall i :: 0 <= i < |nodes| ==> nodes[i] in old(nodes) || fresh(nodes[i])
        decreases |rest|
      {
        var line := Chunk(rest, MAX_CHUNK);
        LoadLine(line);
        rest := rest[|line|..];
      }
    }

    // cfg_save, to the bytes of the file.
    method Save() returns (text: string)
      requires Valid()
      ensures text == CfgText.Save(entries)
    {
      text := "";
      var temp := head;
      ghost var i := 0;
      while temp != null
        invariant 0 <= i <= |nodes| && temp == Nth(nodes, i)
        invariant text + CfgText.Save(entries[i..]) == CfgText.Save(entries)
        decreases |nodes| - i
      {
        assert entries[i..][1..] == entries[i + 1..];
        text := text + (temp.key + "=" + temp.value + "\n");
        temp := temp.next;
        i := i + 1;
      }
    }

    // Saving and loading a store whose entries the text form can express gives
    // another store with the same map and the entries in reverse.
    method Reload() returns (copy: CfgStruct)
      requires Valid() && forall e | e in entries :: Savable(e)
      ensures fresh(copy) && copy.Valid() && copy.entries == Reverse(entries)
      ensures AsMap(copy.entries) == AsMap(entries)
    {
      var text := Save();
      copy := new CfgStruct();
      copy.Load(text);
      SaveLoadSavable(entries);
      SaveLoadTwice(entries);
    }
  }
}
