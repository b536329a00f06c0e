/**
 * Python dictionaries as the registry uses them: keys kept in insertion
 * order, assignment to an existing key keeping its place, deletion removing it.
 */
module OrderedMap {
  import opened Wrappers

  /** The entries of a dict, in iteration order. */
  type Entries<V> = seq<(string, V)>

  function Keys<V>(e: Entries<V>): (r: seq<string>)
    ensures |r| == |e| && forall i :: 0 <= i < |e| ==> r[i] == e[i].0
  {
    if |e| == 0 then [] else [e[0].0] + Keys(e[1..])
  }

  function Values<V>(e: Entries<V>): (r: seq<V>)
    ensures |r| == |e| && forall i :: 0 <= i < |e| ==> r[i] == e[i].1
  {
    if |e| == 0 then [] else [e[0].1] + Values(e[1..])
  }

  /** No key occurs twice. */
  predicate UniqueKeys<V>(e: Entries<V>) {
    forall i, j :: 0 <= i < j < |e| ==> e[i].0 != e[j].0
  }

  /** `d.get(k)`. */
  function Lookup<V>(e: Entries<V>, k: string): (r: Option<V>)
    ensures r.None? <==> k !in Keys(e)
    ensures r.Some? ==> exists i :: 0 <= i < |e| && e[i] == (k, r.value)
  {
    if |e| == 0 then None
    else if e[0].0 == k then Some(e[0].1)
    else
      var r := Lookup(e[1..], k);
      assert r.Some? ==> exists i :: 0 <= i < |e| - 1 && e[1..][i] == (k, r.value);
      r
  }

  /** `d[k] = v`: overwrite in place when `k` is present, otherwise append. */
  function Assign<V>(e: Entries<V>, k: string, v: V): (r: Entries<V>)
    ensures k in Keys(e) ==> Keys(r) == Keys(e)
    ensures k !in Keys(e) ==> Keys(r) == Keys(e) + [k]
  {
    if |e| == 0 then [(k, v)]
    else if e[0].0 == k then [(k, v)] + e[1..]
    else [e[0]] + Assign(e[1..], k, v)
  }

  /** `del d[k]` when `k` is present; nothing otherwise. */
  function Remove<V>(e: Entries<V>, k: string): (r: Entries<V>)
    ensures |r| <= |e|
  {
    if |e| == 0 then []
    else if e[0].0 == k then e[1..]
    else [e[0]] + Remove(e[1..], k)
  }

  /** `[d[n] for n in names if n in d]`. */
  function Collect<V>(e: Entries<V>, names: seq<string>): (r: seq<V>)
    ensures |r| <= |names|
  {
    if |names| == 0 then []
    else
      (match Lookup(e, names[0]) case Some(v) => [v] case None => []) + Collect(e, names[1..])
  }

  lemma {:induction false} AssignKeepsUnique<V>(e: Entries<V>, k: string, v: V)
    requires UniqueKeys(e)
    ensures UniqueKeys(Assign(e, k, v))
  {
    if |e| > 0 && e[0].0 != k {
      AssignKeepsUnique(e[1..], k, v);
      var r := Assign(e, k, v);
      var keys := Keys(Assign(e[1..], k, v));
      assert forall j :: 0 < j < |r| ==> r[j].0 == keys[j - 1];
      assert e[0].0 !in Keys(e[1..]);
    }
  }

  /** After `d[k] = v`, `d.get(k)` is `v` and every other key reads as before. */
  lemma {:induction false} LookupAssign<V>(e: Entries<V>, k: string, v: V, other: string)
    ensures Lookup(Assign(e, k, v), k) == Some(v)
    ensures other != k ==> Lookup(Assign(e, k, v), other) == Lookup(e, other)
  {
    if |e| > 0 && e[0].0 != k {
      LookupAssign(e[1..], k, v, other);
    }
  }

  lemma UniqueTail<V>(e: Entries<V>)
    requires UniqueKeys(e) && |e| > 0
    ensures UniqueKeys(e[1..]) && e[0].0 !in Keys(e[1..])
  {
    assert forall j :: 0 <= j < |e| - 1 ==> Keys(e[1..])[j] == e[j + 1].0 != e[0].0;
  }

  lemma {:induction false} KeysOfRemove<V>(e: Entries<V>, k: string)
    requires UniqueKeys(e)
    ensures forall x :: x in Keys(Remove(e, k)) <==> x in Keys(e) && x != k
  {
    if |e| > 0 {
      UniqueTail(e);
      KeysOfRemove(e[1..], k);
      assert Keys(e) == [e[0].0] + Keys(e[1..]);
      if e[0].0 != k {
        var rest := Remove(e[1..], k);
        assert ([e[0]] + rest)[1..] == rest;
        assert Keys(Remove(e, k)) == [e[0].0] + Keys(rest);
      }
    }
  }

  lemma {:induction false} KeysRemove<V>(e: Entries<V>, k: string)
    requires UniqueKeys(e)
    ensures UniqueKeys(Remove(e, k))
    ensures forall x :: x in Keys(Remove(e, k)) <==> x in Keys(e) && x != k
  {
    KeysOfRemove(e, k);
    if |e| > 0 {
      UniqueTail(e);
      KeysRemove(e[1..], k);
      if e[0].0 != k {
        var r := Remove(e, k);
        var keys := Keys(Remove(e[1..], k));
        assert e[0].0 !in keys;
        assert forall j :: 0 < j < |r| ==> r[j].0 == keys[j - 1] && keys[j - 1] in keys;
      }
    }
  }

  /** After `del d[k]`, `d.get(k)` is `None` and every other key reads as before. */
  lemma {:induction false} LookupRemove<V>(e: Entries<V>, k: string, other: string)
    requires UniqueKeys(e)
    ensures Lookup(Remove(e, k), k).None?
    ensures other != k ==> Lookup(Remove(e, k), other) == Lookup(e, other)
  {
    KeysRemove(e, k);
    if |e| > 0 && e[0].0 != k {
      UniqueTail(e);
      LookupRemove(e[1..], k, other);
    }
  }

  /** Removing an absent key changes nothing (the `if name in` guard). */
  lemma {:induction false} RemoveAbsent<V>(e: Entries<V>, k: string)
    requires k !in Keys(e)
    ensures Remove(e, k) == e
  {
    if |e| > 0 {
      assert Keys(e) == [e[0].0] + Keys(e[1..]);
      RemoveAbsent(e[1..], k);
    }
  }

  /** Collect over the names the entries lack gives nothing for a head entry whose key is not asked for. */
  lemma {:induction false} CollectSkipsHead<V>(head: (string, V), rest: Entries<V>, names: seq<string>)
    requires head.0 !in names
    ensures Collect([head] + rest, names) == Collect(rest, names)
  {
    if |names| > 0 {
      assert ([head] + rest)[1..] == rest;
      CollectSkipsHead(head, rest, names[1..]);
    }
  }

  /** Asking for every key, in order, gives every value: `get_tools(list_tool_names())` is `get_all_tools()`. */
  lemma {:induction false} CollectAllKeys<V>(e: Entries<V>)
    requires UniqueKeys(e)
    ensures Collect(e, Keys(e)) == Values(e)
  {
    if |e| > 0 {
      var rest := e[1..];
      assert e == [e[0]] + rest;
      UniqueTail(e);
      CollectAllKeys(rest);
      CollectSkipsHead(e[0], rest, Keys(rest));
      assert Keys(e)[1..] == Keys(rest);
    }
  }

  /** Each collected value is the one stored under a requested, present name, in request order. */
  lemma {:induction false} CollectSingle<V>(e: Entries<V>, n: string)
    ensures Collect(e, [n]) == (match Lookup(e, n) case Some(v) => [v] case None => [])
  {
    assert [n][1..] == [];
  }

  /** Collecting over two lists of names concatenates the two results. */
  lemma {:induction false} CollectAppend<V>(e: Entries<V>, a: seq<string>, b: seq<string>)
    ensures Collect(e, a + b) == Collect(e, a) + Collect(e, b)
  {
    if |a| > 0 {
      var h := match Lookup(e, a[0]) case Some(v) => [v] case None => [];
      assert (a + b)[0] == a[0];
      assert (a + b)[1..] == a[1..] + b;
      assert Collect(e, a + b) == h + Collect(e, a[1..] + b);
      CollectAppend(e, a[1..], b);
      assert Collect(e, a) == h + Collect(e, a[1..]);
      assert h + (Collect(e, a[1..]) + Collect(e, b)) == (h + Collect(e, a[1..])) + Collect(e, b);
    } else {
      assert a + b == b;
    }
  }
}

/**
 * `ToolRegistry`: the tools keyed by their names and the MCP clients keyed by
 * the name they were registered under, as two insertion-ordered dicts.
 */
module Tools {
  import opened Wrappers
  import opened OrderedMap

  /** A LangChain tool, as far as the registry looks at it. */
  datatype Tool = Tool(name: string, description: string)

  class ToolRegistry<Client> {
    var tools: Entries<Tool>
    var mcpClients: Entries<Client>

    /** Both dicts have unique keys, and every tool is filed under its own name. */
    ghost predicate Valid()
      reads this
    {
      && UniqueKeys(tools)
      && UniqueKeys(mcpClients)
      && FiledByName(tools)
    }

    /** `__init__`: both dicts empty. */
    constructor()
      ensures Valid() && tools == [] && mcpClients == []
    {
      tools := [];
      mcpClients := [];
    }

    /** `get_tool`. */
    function GetTool(name: string): (r: Option<Tool>)
      reads this
      requires Valid()
      ensures r.Some? <==> name in Keys(tools)
      ensures r.Some? ==> r.value.name == name
    {
      Lookup(tools, name)
    }

    /** `register_tool`: filed under its name, replacing a tool of the same name in place. */
    method RegisterTool(tool: Tool)
      modifies this
      requires Valid()
      ensures Valid()
      ensures tools == Assign(old(tools), tool.name, tool) && mcpClients == old(mcpClients)
      ensures GetTool(tool.name) == Some(tool)
      ensures forall n :: n != tool.name ==> GetTool(n) == old(GetTool(n))
      ensures tool.name in Keys(old(tools)) ==> Keys(tools) == Keys(old(tools))
      ensures tool.name !in Keys(old(tools)) ==> Keys(tools) == Keys(old(tools)) + [tool.name]
    {
      AssignKeepsUnique(tools, tool.name, tool);
      AssignFilesByName(tools, tool);
      LookupAssign(tools, tool.name, tool, tool.name);
      forall n ensures n != tool.name ==> Lookup(Assign(tools, tool.name, tool), n) == Lookup(tools, n) {
        LookupAssign(tools, tool.name, tool, n);
      }
      tools := Assign(tools, tool.name, tool);
    }

    /** `unregister_tool`: the name is gone, nothing else changes, and an absent name is a no-op. */
    method UnregisterTool(name: string)
      modifies this
      requires Valid()
      ensures Valid()
      ensures tools == Remove(old(tools), name) && mcpClients == old(mcpClients)
      ensures GetTool(name).None?
      ensures forall n :: n != name ==> GetTool(n) == old(GetTool(n))
      ensures name !in Keys(old(tools)) ==> tools == old(tools)
    {
      KeysRemove(tools, name);
      RemoveFilesByName(tools, name);
      forall n ensures n != name ==> Lookup(Remove(tools, name), n) == Lookup(tools, n) {
        LookupRemove(tools, name, n);
      }
      if name !in Keys(tools) {
        RemoveAbsent(tools, name);
      }
      tools := Remove(tools, name);
    }

    /** `get_mcp_client`. */
    function GetMcpClient(name: string): (r: Option<Client>)
      reads this
      ensures r.Some? <==> name in Keys(mcpClients)
    {
      Lookup(mcpClients, name)
    }

    /** `register_mcp`: as `register_tool`, on the client dict only. */
    method RegisterMcp(name: string, client: Client)
      modifies this
      requires Valid()
      ensures Valid()
      ensures mcpClients == Assign(old(mcpClients), name, client) && tools == old(tools)
      ensures GetMcpClient(name) == Some(client)
      ensures forall n :: n != name ==> GetMcpClient(n) == old(GetMcpClient(n))
    {
      AssignKeepsUnique(mcpClients, name, client);
      LookupAssign(mcpClients, name, client, name);
      forall n ensures n != name ==> Lookup(Assign(mcpClients, name, client), n) == Lookup(mcpClients, n) {
        LookupAssign(mcpClients, name, client, n);
      }
      mcpClients := Assign(mcpClients, name, client);
    }

    /** `unregister_mcp`: as `unregister_tool`, on the client dict only. */
    method UnregisterMcp(name: string)
      modifies this
      requires Valid()
      ensures Valid()
      ensures mcpClients == Remove(old(mcpClients), name) && tools == old(tools)
      ensures GetMcpClient(name).None?
      ensures forall n :: n != name ==> GetMcpClient(n) == old(GetMcpClient(n))
    {
      KeysRemove(mcpClients, name);
      forall n ensures n != name ==> Lookup(Remove(mcpClients, name), n) == Lookup(mcpClients, n) {
        LookupRemove(mcpClients, name, n);
      }
      mcpClients := Remove(mcpClients, name);
    }

    /** `get_tools`: all tools for `None`, else the present ones among `names`, in the order asked. */
    function GetTools(names: Option<seq<string>>): (r: seq<Tool>)
      reads this
      requires Valid()
      ensures names.None? ==> r == Values(tools)
      ensures names.Some? ==> |r| <= |names.value|
      ensures names.Some? ==> r == Collect(tools, names.value)
      ensures forall t :: t in r ==> t.name in Keys(tools) && GetTool(t.name) == Some(t)
    {
      match names
      case None => ValuesFiledByName(tools); Values(tools)
      case Some(ns) => CollectFiledByName(tools, ns); Collect(tools, ns)
    }

    /**
     * Asking for names one list after another gives the two answers one after
     * another, and a single name gives its tool when registered and nothing
     * otherwise: each requested name contributes in request order.
     */
    lemma GetToolsInRequestOrder(a: seq<string>, b: seq<string>, n: string)
      requires Valid()
      ensures GetTools(Some(a + b)) == GetTools(Some(a)) + GetTools(Some(b))
      ensures GetTools(Some([n])) == if GetTool(n).Some? then [GetTool(n).value] else []
    {
      CollectAppend(tools, a, b);
      CollectSingle(tools, n);
    }

    /** `get_all_tools`: exactly `get_tools(None)`, and also what asking for every listed name gives. */
    function GetAllTools(): (r: seq<Tool>)
      reads this
      requires Valid()
      ensures r == GetTools(None)
      ensures r == GetTools(Some(ListToolNames()))
    {
      CollectAllKeys(tools);
      Values(tools)
    }

    /** `list_tool_names`: the registered names, in registration order, each once. */
    function ListToolNames(): (r: seq<string>)
      reads this
      requires Valid()
      ensures forall n :: n in r <==> GetTool(n).Some?
      ensures forall i, j :: 0 <= i < j < |r| ==> r[i] != r[j]
    {
      Keys(tools)
    }

    /** `list_mcp_names`. */
    function ListMcpNames(): (r: seq<string>)
      reads this
      requires Valid()
      ensures forall n :: n in r <==> GetMcpClient(n).Some?
      ensures forall i, j :: 0 <= i < j < |r| ==> r[i] != r[j]
    {
      Keys(mcpClients)
    }

    /** `clear`: both dicts become empty. */
    method Clear()
      modifies this
      ensures Valid() && tools == [] && mcpClients == []
    {
      tools := [];
      mcpClients := [];
    }
  }

  /** Every entry is filed under its tool's own name. */
  predicate FiledByName(e: Entries<Tool>) {
    forall p :: p in e ==> p.0 == p.1.name
  }

  /** Filing a tool under its own name keeps every entry filed by name. */
  lemma {:induction false} AssignFilesByName(e: Entries<Tool>, t: Tool)
    requires FiledByName(e)
    ensures FiledByName(Assign(e, t.name, t))
  {
    if |e| > 0 && e[0].0 != t.name {
      assert FiledByName(e[1..]) by {
        assert forall p :: p in e[1..] ==> p in e;
      }
      AssignFilesByName(e[1..], t);
    } else if |e| > 0 {
      assert forall p :: p in e[1..] ==> p in e;
    }
  }

  lemma {:induction false} RemoveFilesByName(e: Entries<Tool>, k: string)
    requires FiledByName(e)
    ensures FiledByName(Remove(e, k))
  {
    if |e| > 0 {
      assert FiledByName(e[1..]) by {
        assert forall p :: p in e[1..] ==> p in e;
      }
      if e[0].0 != k {
        RemoveFilesByName(e[1..], k);
      }
    }
  }

  /** With each tool filed under its name, `Lookup` of a tool's name finds that very tool. */
  lemma LookupOwnName(e: Entries<Tool>, i: nat)
    requires UniqueKeys(e) && i < |e|
    requires FiledByName(e)
    ensures Lookup(e, e[i].1.name) == Some(e[i].1)
  {
    var r := Lookup(e, e[i].1.name);
    var j :| 0 <= j < |e| && e[j] == (e[i].1.name, r.value);
    assert i == j;
  }

  lemma ValuesFiledByName(e: Entries<Tool>)
    requires UniqueKeys(e)
    requires FiledByName(e)
    ensures forall t :: t in Values(e) ==> t.name in Keys(e) && Lookup(e, t.name) == Some(t)
  {
    forall t | t in Values(e) ensures t.name in Keys(e) && Lookup(e, t.name) == Some(t) {
      var i :| 0 <= i < |e| && Values(e)[i] == t;
      LookupOwnName(e, i);
    }
  }

  lemma {:induction false} CollectFiledByName(e: Entries<Tool>, names: seq<string>)
    requires UniqueKeys(e)
    requires FiledByName(e)
    ensures forall t :: t in Collect(e, names) ==> t.name in Keys(e) && Lookup(e, t.name) == Some(t)
  {
    if |names| > 0 {
      CollectFiledByName(e, names[1..]);
      var head := Lookup(e, names[0]);
      if head.Some? {
        var i :| 0 <= i < |e| && e[i] == (names[0], head.value);
        LookupOwnName(e, i);
      }
    }
  }
}
