/** The main window's widget lookup: the widgets whose object names carry the known prefix are
    collected by name, and each is bound to the window under its name without the prefix. */
module LoadUi {
  import opened PyLib

  /** `_search_children`: the dictionary `{name: obj for (name, obj) in raw if name starts with
      prefix}`, built in order, so a later widget with the same name replaces an earlier one. */
  function SearchChildren<O>(raw: seq<(string, O)>, prefix: string): (children: map<string, O>)
    ensures forall k :: k in children ==> StartsWith(k, prefix)
  {
    if raw == [] then map[]
    else
      var before := SearchChildren(raw[..|raw| - 1], prefix);
      var (name, obj) := raw[|raw| - 1];
      if StartsWith(name, prefix) then before[name := obj] else before
  }

  /** A name is kept exactly when some widget has it and it carries the prefix; its widget is
      the last one with that name. */
  lemma {:induction false} SearchChildrenKeeps<O>(raw: seq<(string, O)>, prefix: string, name: string)
    ensures name in SearchChildren(raw, prefix) <==>
      StartsWith(name, prefix) && exists i :: 0 <= i < |raw| && raw[i].0 == name
    ensures name in SearchChildren(raw, prefix) ==>
      exists i :: 0 <= i < |raw| && raw[i].0 == name && SearchChildren(raw, prefix)[name] == raw[i].1
        && forall j :: i < j < |raw| ==> raw[j].0 != name
  {
    if raw != [] {
      var init := raw[..|raw| - 1];
      SearchChildrenKeeps(init, prefix, name);
      var last := |raw| - 1;
      if raw[last].0 == name && StartsWith(name, prefix) {
        assert SearchChildren(raw, prefix)[name] == raw[last].1;
      } else if name in SearchChildren(init, prefix) {
        var i :| 0 <= i < |init| && init[i].0 == name && SearchChildren(init, prefix)[name] == init[i].1
          && forall j :: i < j < |init| ==> init[j].0 != name;
        assert raw[i] == init[i];
        assert forall j :: i < j < |raw| ==> raw[j].0 != name by {
          forall j | i < j < |raw| ensures raw[j].0 != name {
            if j < last { assert raw[j] == init[j]; }
          }
        }
      } else {
        forall i | 0 <= i < |raw| && raw[i].0 == name ensures !StartsWith(name, prefix) {
          if i < last { assert raw[i] == init[i]; }
        }
      }
    }
  }

  /** The attribute a key is bound to: the key without the prefix. */
  function AttrName(key: string, prefix: string): (attr: string)
    requires StartsWith(key, prefix)
    ensures prefix + attr == key
  {
    key[|prefix|..]
  }

  /** Two keys with the prefix bind the same attribute only if they are the same key. */
  lemma AttrNameInjective(k1: string, k2: string, prefix: string)
    requires StartsWith(k1, prefix) && StartsWith(k2, prefix)
    ensures AttrName(k1, prefix) == AttrName(k2, prefix) <==> k1 == k2
  {
    if AttrName(k1, prefix) == AttrName(k2, prefix) {
      assert prefix + AttrName(k1, prefix) == k1;
    }
  }

  /** `MainWindow`: the widgets found by their prefixed names, and the attributes the window
      binds them to. */
  class MainWindow<O(==)> {
    const prefix: string
    var children: map<string, O>
    var attrs: map<string, O>

    ghost predicate Valid()
      reads this
    {
      forall k :: k in children ==> StartsWith(k, prefix)
    }

    /** `__init__`: search the window's widgets, then bind them. The title and the layout are
        left out. */
    constructor (raw: seq<(string, O)>, prefix: string)
      ensures Valid() && this.prefix == prefix && children == SearchChildren(raw, prefix)
      ensures forall k :: k in children ==>
        AttrName(k, prefix) in attrs && attrs[AttrName(k, prefix)] == children[k]
      ensures forall a :: a in attrs ==> prefix + a in children
    {
      this.prefix := prefix;
      children := SearchChildren(raw, prefix);
      attrs := map[];
      new;
      AssignChildren();
    }

    /** `_assign_children`: for each found widget, `setattr(self, key[len(prefix):], widget)`.
        The widgets themselves are not touched. */
    method AssignChildren()
      requires Valid()
      modifies this`attrs
      ensures Valid()
      ensures forall k :: k in children ==>
        AttrName(k, prefix) in attrs && attrs[AttrName(k, prefix)] == children[k]
      ensures forall a :: a in attrs ==> a in old(attrs) || prefix + a in children
      ensures forall a :: a in old(attrs) && prefix + a !in children ==>
        a in attrs && attrs[a] == old(attrs)[a]
    {
      var todo := children.Keys;
      while todo != {}
        invariant todo <= children.Keys
        invariant forall k :: k in children && k !in todo ==>
          AttrName(k, prefix) in attrs && attrs[AttrName(k, prefix)] == children[k]
        invariant forall a :: a in attrs ==> a in old(attrs) || prefix + a in children
        invariant forall a :: a in old(attrs) && prefix + a !in children ==>
          a in attrs && attrs[a] == old(attrs)[a]
        decreases |todo|
      {
        var k :| k in todo;
        var attr := AttrName(k, prefix);
        forall k2 | k2 in children && k2 !in todo && k2 != k
          ensures AttrName(k2, prefix) != attr
        {
          AttrNameInjective(k, k2, prefix);
        }
        attrs := attrs[attr := children[k]];
        todo := todo - {k};
      }
    }
  }
}
