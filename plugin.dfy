/** The plugin infrastructure (plugin.py): the registry that maps a plugin
    name to the plugin instance registered under it, and the checks the
    plugin interface makes when an instance is built. Plugin behaviour
    (`setup`, `autosetup`, `run`) is abstract in the source and is not part
    of the model; a plugin is its name and title. */
module Plugins {
  import opened Wrappers
  import opened Text

  /** An instance of a `PluginIf` subclass. */
  datatype Plugin = Plugin(title: string, name: string)

  /** What `registry(obj)` can be handed: a `PluginIf` instance, or any
      other object, known here only by the name of its class. */
  datatype Object = Instance(plugin: Plugin) | Other(className: string)

  /** The `AssertionError` that `PluginIf.__init__` raises, with its message. */
  datatype Refusal = AssertionError(message: string)

  /** `PluginIf.__init__(title, name)`. Both asserts test `name`, so a blank
      name fails with the first message (the one that speaks of the title)
      and the title is never checked. */
  function NewPlugin(title: string, name: string): (r: Result<Plugin, Refusal>)
    ensures r.Err? <==> forall i :: 0 <= i < |name| ==> IsSpace(name[i])
    ensures r.Err? ==> r.error == AssertionError("Cannot register plugin with the unknown title")
    ensures r.Ok? ==> r.value == Plugin(title, name)
  {
    StripBlank(name);
    if Strip(name) == "" then Err(AssertionError("Cannot register plugin with the unknown title"))
    else Ok(Plugin(title, name))
  }

  /** The contents of the registry dict: its keys in insertion order and the
      plugin under each. */
  datatype Table = Table(names: seq<string>, entries: map<string, Plugin>)

  ghost predicate Wf(t: Table)
  {
    (forall i, j :: 0 <= i < j < |t.names| ==> t.names[i] != t.names[j]) &&
    (forall n :: n in t.names <==> n in t.entries)
  }

  const Empty := Table([], map[])

  /** `__call__(obj)`: an instance is stored under its `name`, replacing any
      earlier entry of that name, which keeps its place in the key order; any
      other object is skipped (after an error is logged). */
  function Register(t: Table, o: Object): (r: Table)
    requires Wf(t)
    ensures Wf(r)
    ensures o.Other? ==> r == t
    ensures o.Instance? ==> r.entries == t.entries[o.plugin.name := o.plugin]
    ensures o.Instance? ==> t.names <= r.names && (o.plugin.name in t.names ==> r.names == t.names)
  {
    match o
    case Other(_) => t
    case Instance(p) =>
      Table(if p.name in t.names then t.names else t.names + [p.name], t.entries[p.name := p])
  }

  /** `registry[name]`: the plugin under `name`, or `None`. An instance is
      always truthy, so the `and`/`or` idiom returns it whenever the key is
      present. */
  function Lookup(t: Table, name: string): (r: Option<Plugin>)
    ensures r.Some? <==> name in t.entries
    ensures r.Some? ==> r.value == t.entries[name]
  {
    if name in t.entries then Some(t.entries[name]) else None
  }

  /** The registry after a sequence of `__call__`s. */
  function RegisterAll(t: Table, os: seq<Object>): (r: Table)
    requires Wf(t)
    ensures Wf(r)
    decreases |os|
  {
    if os == [] then t else RegisterAll(Register(t, os[0]), os[1..])
  }

  /** Some object of `os` is an instance registered under `name`. */
  ghost predicate Offers(os: seq<Object>, name: string)
  {
    exists i :: 0 <= i < |os| && os[i].Instance? && os[i].plugin.name == name
  }

  /** The last instance of `os` named `name`. */
  function LastNamed(os: seq<Object>, name: string): (r: Option<Plugin>)
    ensures r.Some? ==> r.value.name == name
    decreases |os|
  {
    if os == [] then None
    else
      var l := LastNamed(os[..|os| - 1], name);
      var o := os[|os| - 1];
      if o.Instance? && o.plugin.name == name then Some(o.plugin) else l
  }

  lemma RegisterAllSnoc(t: Table, os: seq<Object>, o: Object)
    requires Wf(t)
    ensures RegisterAll(t, os + [o]) == Register(RegisterAll(t, os), o)
    decreases |os|
  {
    if os == [] {
      assert [o][1..] == [];
    } else {
      assert (os + [o])[1..] == os[1..] + [o];
      RegisterAllSnoc(Register(t, os[0]), os[1..], o);
    }
  }

  /** After registering `os` on an empty registry, a name finds exactly the
      last instance registered under it, and nothing for a name no instance
      carried: later registrations replace earlier ones. */
  lemma {:induction false} LastRegistrationWins(os: seq<Object>, name: string)
    ensures Lookup(RegisterAll(Empty, os), name) == LastNamed(os, name)
    decreases |os|
  {
    if os != [] {
      var init := os[..|os| - 1];
      var o := os[|os| - 1];
      assert init + [o] == os;
      RegisterAllSnoc(Empty, init, o);
      LastRegistrationWins(init, name);
    }
  }

  /** The names `plugins()` lists are exactly those of the instances that were
      registered. */
  lemma {:induction false} RegisteredNames(os: seq<Object>, name: string)
    ensures name in RegisterAll(Empty, os).names <==> Offers(os, name)
    decreases |os|
  {
    if os != [] {
      var init := os[..|os| - 1];
      var o := os[|os| - 1];
      assert init + [o] == os;
      RegisterAllSnoc(Empty, init, o);
      RegisteredNames(init, name);
      OffersSnoc(init, o, name);
    }
  }

  lemma OffersSnoc(init: seq<Object>, o: Object, name: string)
    ensures Offers(init + [o], name) <==> Offers(init, name) || (o.Instance? && o.plugin.name == name)
  {
    var os := init + [o];
    if Offers(init, name) {
      var i :| 0 <= i < |init| && init[i].Instance? && init[i].plugin.name == name;
      assert os[i] == init[i];
    }
    if Offers(os, name) && !(o.Instance? && o.plugin.name == name) {
      var i :| 0 <= i < |os| && os[i].Instance? && os[i].plugin.name == name;
      assert i < |init| && init[i] == os[i];
    }
    if o.Instance? && o.plugin.name == name {
      assert os[|init|] == o;
    }
  }

  /** `PluginRegistry`: the name-to-plugin dict, updated in place. */
  class PluginRegistry {
    var names: seq<string>
    var entries: map<string, Plugin>

    function State(): Table
      reads this
    {
      Table(names, entries)
    }

    ghost predicate Valid()
      reads this
    {
      Wf(State())
    }

    constructor ()
      ensures Valid() && State() == Empty
    {
      names := [];
      entries := map[];
    }

    /** `__call__(obj)`; the registry itself is returned in both cases. */
    method Call(o: Object) returns (r: PluginRegistry)
      modifies this
      requires Valid()
      ensures Valid() && State() == Register(old(State()), o)
      ensures r == this
    {
      if o.Instance? {
        var p := o.plugin;
        if p.name !in names {
          names := names + [p.name];
        }
        entries := entries[p.name := p];
      }
      r := this;
    }

    /** `plugins()`: the registered names, in insertion order. */
    method PluginNames() returns (r: seq<string>)
      requires Valid()
      ensures r == names
      ensures forall n :: n in r <==> Lookup(State(), n).Some?
      ensures forall i, j :: 0 <= i < j < |r| ==> r[i] != r[j]
    {
      r := names;
    }

    /** `registry[name]`. */
    method Get(name: string) returns (r: Option<Plugin>)
      requires Valid()
      ensures r == Lookup(State(), name)
    {
      if name in entries {
        r := Some(entries[name]);
      } else {
        r := None;
      }
    }
  }
}
