/**
  The effect summary of the planner: the effects granted by the active nodes,
  grouped by effect type and, within a type, by unit.
 */
module Effects {
  import opened Seqs
  import opened Graph

  /** One bonus a node type grants; the value is only carried along, never summed here. */
  datatype Effect = Effect(effectType: string, value: real, unit: string)

  /** A node type of the catalogue: display texts and the effects it grants. */
  datatype NodeType = NodeType(labelText: string, image: string, description: string, effects: seq<Effect>)

  /** The field an effect is grouped by. */
  datatype Field = ByType | ByUnit

  function KeyOf(e: Effect, field: Field): string {
    match field
    case ByType => e.effectType
    case ByUnit => e.unit
  }

  /** Every node's type is in the catalogue (getActiveEffects looks each one up). */
  predicate TypesKnown(all: seq<Node>, types: map<string, NodeType>) {
    forall n :: n in all ==> n.nodeType in types
  }

  /**
    The effects of the active nodes, node by node in list order and, within a
    node, in the order its type lists them.
   */
  function ActiveEffectList(all: seq<Node>, types: map<string, NodeType>): (r: seq<Effect>)
    requires TypesKnown(all, types)
    ensures forall e :: e in r <==> exists n :: n in all && n.active && e in types[n.nodeType].effects
    ensures (forall n :: n in all ==> !n.active) ==> r == []
  {
    if all == [] then []
    else
      var rest := ActiveEffectList(all[1..], types);
      assert forall n :: n in all[1..] ==> n in all;
      assert forall n :: n in all ==> n == all[0] || n in all[1..];
      if all[0].active then types[all[0].nodeType].effects + rest else rest
  }

  /** The members of es whose field equals key, in the order of es. */
  function OfKey(es: seq<Effect>, field: Field, key: string): seq<Effect> {
    if es == [] then []
    else if KeyOf(es[0], field) == key then [es[0]] + OfKey(es[1..], field, key)
    else OfKey(es[1..], field, key)
  }

  /** A group holds exactly the effects of es with its key, in the order of es. */
  lemma {:induction false} OfKeyMembers(es: seq<Effect>, field: Field, key: string)
    ensures forall e :: e in OfKey(es, field, key) <==> e in es && KeyOf(e, field) == key
    ensures Subsequence(OfKey(es, field, key), es)
  {
    if es != [] {
      OfKeyMembers(es[1..], field, key);
      assert forall e :: e in es <==> e == es[0] || e in es[1..];
    }
  }

  lemma {:induction false} OfKeyAppend(es: seq<Effect>, e: Effect, field: Field, key: string)
    ensures OfKey(es + [e], field, key) == OfKey(es, field, key) + (if KeyOf(e, field) == key then [e] else [])
  {
    if es == [] {
      assert [e][1..] == [];
    } else {
      assert (es + [e])[0] == es[0];
      assert (es + [e])[1..] == es[1..] + [e];
      OfKeyAppend(es[1..], e, field, key);
    }
  }

  /**
    Grouping field type and then field unit gives the same lists as grouping field unit
    and then field type: each is the order-keeping selection of the effects with
    both the given type and the given unit.
   */
  lemma {:induction false} OfKeyCommutes(es: seq<Effect>, t: string, u: string)
    ensures OfKey(OfKey(es, ByType, t), ByUnit, u) == OfKey(OfKey(es, ByUnit, u), ByType, t)
  {
    if es != [] {
      OfKeyCommutes(es[1..], t, u);
    }
  }

  /** The number of members of es with the given key; the groups of a grouping add up to |es|. */
  lemma {:induction false} OfKeySplit(es: seq<Effect>, field: Field, key: string)
    ensures |OfKey(es, field, key)| + |OfKeyOther(es, field, key)| == |es|
  {
    if es != [] {
      OfKeySplit(es[1..], field, key);
    }
  }

  /** The members of es whose field differs from key. */
  function OfKeyOther(es: seq<Effect>, field: Field, key: string): (r: seq<Effect>)
    ensures forall e :: e in r <==> e in es && KeyOf(e, field) != key
  {
    if es == [] then []
    else if KeyOf(es[0], field) != key then [es[0]] + OfKeyOther(es[1..], field, key)
    else OfKeyOther(es[1..], field, key)
  }

  /** The keys occurring in es. */
  function Keys(es: seq<Effect>, field: Field): set<string> {
    if es == [] then {} else {KeyOf(es[0], field)} + Keys(es[1..], field)
  }

  /** A key occurs iff some effect of es carries it. */
  lemma {:induction false} KeysMembers(es: seq<Effect>, field: Field)
    ensures forall k :: k in Keys(es, field) <==> exists e :: e in es && KeyOf(e, field) == k
  {
    if es != [] {
      KeysMembers(es[1..], field);
      assert forall e :: e in es <==> e == es[0] || e in es[1..];
    }
  }

  lemma {:induction false} KeysAppend(es: seq<Effect>, e: Effect, field: Field)
    ensures Keys(es + [e], field) == Keys(es, field) + {KeyOf(e, field)}
  {
    if es == [] {
      assert [e][1..] == [];
    } else {
      assert (es + [e])[0] == es[0];
      assert (es + [e])[1..] == es[1..] + [e];
      KeysAppend(es[1..], e, field);
    }
  }

  /** A key that does not occur has an empty group. */
  lemma {:induction false} OfKeyMissing(es: seq<Effect>, field: Field, key: string)
    requires key !in Keys(es, field)
    ensures OfKey(es, field, key) == []
  {
    if es != [] {
      OfKeyMissing(es[1..], field, key);
    }
  }

  /** groups holds, for each key occurring in es, exactly the effects of es with that key. */
  ghost predicate GroupsOf(es: seq<Effect>, field: Field, groups: map<string, seq<Effect>>) {
    && groups.Keys == Keys(es, field)
    && (forall k :: k in groups ==> groups[k] == OfKey(es, field, k))
  }

  /** Appending e to the group of its key keeps the grouping exact. */
  lemma GroupPush(es: seq<Effect>, field: Field, groups: map<string, seq<Effect>>, e: Effect)
    requires GroupsOf(es, field, groups)
    ensures var key := KeyOf(e, field);
            GroupsOf(es + [e], field, groups[key := (if key in groups then groups[key] else []) + [e]])
  {
    var key := KeyOf(e, field);
    var groups' := groups[key := (if key in groups then groups[key] else []) + [e]];
    KeysAppend(es, e, field);
    assert groups'.Keys == groups.Keys + {key};
    OfKeyAppend(es, e, field, key);
    if key !in groups {
      OfKeyMissing(es, field, key);
    }
    assert groups'[key] == OfKey(es + [e], field, key);
    forall k | k in groups' && k != key
      ensures groups'[k] == OfKey(es + [e], field, k)
    {
      OfKeyAppend(es, e, field, k);
    }
  }

  /**
    The forEach of getActiveEffects (and of the per-unit grouping of
    updateSummary): a map from each key occurring in es to the effects with
    that key, in the order of es.
   */
  method GroupEffects(es: seq<Effect>, field: Field) returns (groups: map<string, seq<Effect>>)
    ensures groups.Keys == Keys(es, field)
    ensures forall k :: k in groups ==> groups[k] == OfKey(es, field, k)
  {
    groups := map[];
    var j := 0;
    while j < |es|
      invariant 0 <= j <= |es|
      invariant GroupsOf(es[..j], field, groups)
    {
      var e := es[j];
      var key := KeyOf(e, field);
      GroupPush(es[..j], field, groups, e);
      assert es[..j + 1] == es[..j] + [e];
      if key !in groups {
        groups := groups[key := []];
      }
      groups := groups[key := groups[key] + [e]];
      j := j + 1;
    }
    assert es[..j] == es;
  }
}
