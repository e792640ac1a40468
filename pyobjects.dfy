/**
 * The Python objects the parsers write their results into: an object's
 * attribute dict `obj.__dict__` and a module's globals dict. Both are updated
 * in place, so both are heap objects here.
 */
module PyObjects {
  import opened Scalars
  import opened OrderedMaps

  /** An object whose attributes are held in `__dict__`. */
  class Instance {
    var attrs: OrderedMap<Scalar>

    ghost predicate Valid()
      reads this
    {
      attrs.Valid()
    }

    constructor (attrs: OrderedMap<Scalar>)
      requires attrs.Valid()
      ensures this.attrs == attrs && Valid()
    {
      this.attrs := attrs;
    }

    /** `obj.__dict__.update(d)`. */
    method Update(d: OrderedMap<Scalar>)
      requires Valid() && d.Valid()
      modifies this
      ensures Valid()
      ensures attrs == old(attrs).UpdateWith(d)
    {
      attrs := attrs.UpdateWith(d);
    }
  }

  /** What a global name can be bound to, as far as the globals parser cares:
      a plain value, or one of the kinds it skips. */
  datatype Value =
    | Data(scalar: Scalar)
    | Module
    | Class
    | Function
    | ParserInstance    // an instance of the globals parser itself

  /** The scalar values of `m` as global values. */
  function AsGlobals(m: OrderedMap<Scalar>): (r: OrderedMap<Value>)
    ensures m.Valid() ==> r.Valid()
    ensures r.keys == m.keys && r.values.Keys == m.values.Keys
    ensures forall k :: k in m.values ==> r.values[k] == Data(m.values[k])
  {
    OrderedMap(m.keys, map k | k in m.values :: Data(m.values[k]))
  }

  /** A module's globals dict, `frame.f_globals`. */
  class Globals {
    var vars: OrderedMap<Value>

    ghost predicate Valid()
      reads this
    {
      vars.Valid()
    }

    constructor (vars: OrderedMap<Value>)
      requires vars.Valid()
      ensures this.vars == vars && Valid()
    {
      this.vars := vars;
    }

    /** `f_globals.update(d)` with a dict of plain values. */
    method Update(d: OrderedMap<Scalar>)
      requires Valid() && d.Valid()
      modifies this
      ensures Valid()
      ensures vars == old(vars).UpdateWith(AsGlobals(d))
    {
      vars := vars.UpdateWith(AsGlobals(d));
    }
  }
}
