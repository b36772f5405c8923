/**
 The creature list editor of app/page.tsx: the list of creature records, the three form
 fields and the edit cursor, with the add, start-edit, commit-edit, cancel-edit and
 delete handlers. React state is modelled as the fields of one object; each setter call
 becomes an assignment, and the graph is a function of the list, rebuilt on every change.
 */
module Editor {
  import opened Text
  import opened Creatures
  import opened GraphBuilder

  /** The colour the form starts with and is reset to. */
  const DefaultColor: string := "#f0f0f0"

  /** A stored record as every handler leaves it: a non-empty name and a food, both trimmed. */
  predicate WellFormed(c: Creature)
  {
    c.name != "" && NoEdgeWhitespace(c.name) && NoEdgeWhitespace(c.eats)
  }

  /** Well formed means: the name is non-empty and both strings equal their own trim. */
  lemma WellFormedIsTrimmed(c: Creature)
    ensures WellFormed(c) <==> c.name != "" && Trim(c.name) == c.name && Trim(c.eats) == c.eats
  {
    TrimFixedPoint(c.name);
    TrimFixedPoint(c.eats);
  }

  /** The record the add and commit handlers build from the form fields. */
  function Record(name: string, eats: string, color: string): (r: Creature)
    ensures Trim(name) != "" ==> WellFormed(r)
  {
    Creature(Trim(name), Trim(eats), color)
  }

  /** The index-wise map of the save handler: position `index` becomes `c`, every other position keeps its record. */
  function ReplaceAt(s: seq<Creature>, index: nat, c: Creature): (r: seq<Creature>)
    ensures r == if index < |s| then s[index := c] else s
  {
    seq(|s|, i requires 0 <= i < |s| => if i == index then c else s[i])
  }

  /** The index-wise filter of the delete button, where `from` is the position of `s[0]` in the whole list. */
  function KeepUnlessAt(s: seq<Creature>, index: nat, from: nat): (r: seq<Creature>)
    ensures r == if from <= index < from + |s| then s[..index - from] + s[index - from + 1..] else s
    decreases |s|
  {
    if s == [] then []
    else
      var rest := KeepUnlessAt(s[1..], index, from + 1);
      assert from < index < from + |s| ==> s[..index - from] == [s[0]] + s[1..][..index - from - 1];
      (if from == index then [] else [s[0]]) + rest
  }

  /** Delete by index: drops the record at `index`, or nothing when `index` is out of range. */
  function RemoveAt(s: seq<Creature>, index: nat): (r: seq<Creature>)
    ensures r == if index < |s| then s[..index] + s[index + 1..] else s
  {
    KeepUnlessAt(s, index, 0)
  }

  /** Every stored record is well formed: the invariant of all reachable states. */
  predicate AllWellFormed(s: seq<Creature>)
  {
    forall i :: 0 <= i < |s| ==> WellFormed(s[i])
  }

  /** Appending a well-formed record keeps every record well formed. */
  lemma AppendKeepsWellFormed(s: seq<Creature>, c: Creature)
    requires WellFormed(c)
    ensures AllWellFormed(s) ==> AllWellFormed(s + [c])
  {
  }

  /** Deleting at an in-range index shortens the list by one and shifts the later records down. */
  lemma RemoveAtShifts(s: seq<Creature>, index: nat)
    requires index < |s|
    ensures |RemoveAt(s, index)| == |s| - 1
    ensures forall k :: 0 <= k < index ==> RemoveAt(s, index)[k] == s[k]
    ensures forall k :: index <= k < |s| - 1 ==> RemoveAt(s, index)[k] == s[k + 1]
  {
  }

  /** Deleting keeps every remaining record well formed. */
  lemma RemoveAtKeepsWellFormed(s: seq<Creature>, index: nat)
    requires AllWellFormed(s)
    ensures AllWellFormed(RemoveAt(s, index))
  {
    if index < |s| {
      RemoveAtShifts(s, index);
    }
  }

  /** Re-building a stored record from its own fields gives the record back. */
  lemma RecordOfWellFormed(c: Creature)
    requires WellFormed(c)
    ensures Record(c.name, c.eats, c.color) == c
  {
    TrimFixedPoint(c.name);
    TrimFixedPoint(c.eats);
  }

  /** Loading a stored record into the form and saving it unchanged leaves the list as it was. */
  lemma EditRoundTrip(s: seq<Creature>, index: nat)
    requires index < |s| && WellFormed(s[index])
    ensures ReplaceAt(s, index, Record(s[index].name, s[index].eats, s[index].color)) == s
  {
    RecordOfWellFormed(s[index]);
    assert s[index := s[index]] == s;
  }

  /**
   The cursor is not adjusted by a delete: deleting at `j` before the edited index `i` and
   then saving overwrites the record that moved into position `i` (the old `s[i + 1]`),
   while the record being edited, now at `i - 1`, keeps its old value.
   */
  lemma DeleteBeforeEditRetargets(s: seq<Creature>, j: nat, i: nat, c: Creature)
    requires j < i < |s| - 1
    ensures ReplaceAt(RemoveAt(s, j), i, c) == s[..j] + s[j + 1..i + 1] + [c] + s[i + 2..]
    ensures ReplaceAt(RemoveAt(s, j), i, c)[i - 1] == s[i]
  {
    var t := RemoveAt(s, j);
    RemoveAtShifts(s, j);
    var expected := s[..j] + s[j + 1..i + 1] + [c] + s[i + 2..];
    assert |expected| == |t|;
    forall k | 0 <= k < |t| ensures t[i := c][k] == expected[k] {
      if k < j {
        assert expected[k] == s[k];
      } else if k < i {
        assert expected[k] == s[k + 1];
      } else if k > i {
        assert expected[k] == s[k + 1];
      }
    }
    assert t[i := c] == expected;
  }

  /** Deleting any record while the last one is edited makes the save replace nothing. */
  lemma DeleteThenSaveLast(s: seq<Creature>, j: nat, c: Creature)
    requires j < |s|
    ensures ReplaceAt(RemoveAt(s, j), |s| - 1, c) == RemoveAt(s, j)
  {
  }

  /** The state of the `FoodWebApp` component. */
  class FoodWebApp {
    var creatureName: string
    var eats: string
    var color: string
    var creatures: seq<Creature>
    var editing: Option<nat>

    predicate Valid()
      reads this
    {
      AllWellFormed(creatures)
    }

    /** The form fields hold their initial values. */
    predicate FormIsReset()
      reads this
    {
      creatureName == "" && eats == "" && color == DefaultColor
    }

    /** The graph the visualization shows for the current list. */
    function WebGraph(): Graph
      reads this
    {
      Build(creatures)
    }

    /** The initial state of lines 18-22. */
    constructor ()
      ensures creatures == [] && editing == None && FormIsReset() && Valid()
    {
      creatureName, eats, color := "", "", DefaultColor;
      creatures, editing := [], None;
    }

    /** Typing in the name field. */
    method SetCreatureName(value: string)
      modifies this`creatureName
      ensures creatureName == value
    {
      creatureName := value;
    }

    /** Typing in the food field. */
    method SetEats(value: string)
      modifies this`eats
      ensures eats == value
    {
      eats := value;
    }

    /** Picking a colour. */
    method SetColor(value: string)
      modifies this`color
      ensures color == value
    {
      color := value;
    }

    /**
     `addCreature`: with a blank name nothing changes; otherwise the record built from the
     form is appended (even if its name is already in the list) and the form is reset.
     */
    method AddCreature()
      modifies this`creatures, this`creatureName, this`eats, this`color
      ensures Trim(old(creatureName)) == "" ==>
        creatures == old(creatures) && creatureName == old(creatureName)
        && eats == old(eats) && color == old(color)
      ensures Trim(old(creatureName)) != "" ==>
        creatures == old(creatures) + [Record(old(creatureName), old(eats), old(color))]
        && FormIsReset()
      ensures Trim(old(creatureName)) != "" ==>
        WebGraph() == Step(old(WebGraph()), Record(old(creatureName), old(eats), old(color)))
      ensures old(Valid()) ==> Valid()
    {
      if Trim(creatureName) == "" {
        return;
      }
      var record := Record(creatureName, eats, color);
      BuildAppend(creatures, record);
      AppendKeepsWellFormed(creatures, record);
      creatures := creatures + [record];
      creatureName, eats, color := "", "", DefaultColor;
    }

    /** `startEditing(index)`: loads record `index` into the form and points the cursor at it. */
    method StartEditing(index: nat)
      requires index < |creatures|
      modifies this`creatureName, this`eats, this`color, this`editing
      ensures creatureName == creatures[index].name && eats == creatures[index].eats
      ensures color == creatures[index].color && editing == Some(index)
    {
      var creature := creatures[index];
      creatureName, eats, color := creature.name, creature.eats, creature.color;
      editing := Some(index);
    }

    /**
     `editCreature`: with a blank name or no cursor nothing changes; otherwise the record at
     the cursor (if it is still in range) is replaced by the one built from the form, no other
     record changes, the form is reset and the cursor cleared.
     */
    method EditCreature()
      modifies this`creatures, this`creatureName, this`eats, this`color, this`editing
      ensures Trim(old(creatureName)) == "" || old(editing) == None ==>
        creatures == old(creatures) && creatureName == old(creatureName) && eats == old(eats)
        && color == old(color) && editing == old(editing)
      ensures Trim(old(creatureName)) != "" && old(editing) != None ==>
        creatures == ReplaceAt(old(creatures), old(editing).value, Record(old(creatureName), old(eats), old(color)))
        && FormIsReset() && editing == None
      ensures |creatures| == |old(creatures)|
      ensures forall k :: 0 <= k < |creatures| && Some(k) != old(editing) ==> creatures[k] == old(creatures)[k]
      ensures old(Valid()) ==> Valid()
    {
      if Trim(creatureName) == "" || editing == None {
        return;
      }
      var record := Record(creatureName, eats, color);
      creatures := ReplaceAt(creatures, editing.value, record);
      creatureName, eats, color := "", "", DefaultColor;
      editing := None;
    }

    /** The cancel button of lines 103-108: clears the cursor and the form, keeps the list. */
    method CancelEdit()
      modifies this`creatureName, this`eats, this`color, this`editing
      ensures editing == None && FormIsReset()
    {
      editing := None;
      creatureName, eats, color := "", "", DefaultColor;
    }

    /** The delete button of line 140: removes record `index`; the cursor is left as it was. */
    method DeleteCreature(index: nat)
      modifies this`creatures
      ensures creatures == RemoveAt(old(creatures), index)
      ensures old(Valid()) ==> Valid()
    {
      if Valid() {
        RemoveAtKeepsWellFormed(creatures, index);
      }
      creatures := RemoveAt(creatures, index);
    }

    /** The main button of line 99: saves when a cursor is set, adds otherwise. */
    method Submit()
      modifies this`creatures, this`creatureName, this`eats, this`color, this`editing
      ensures Trim(old(creatureName)) == "" ==>
        creatures == old(creatures) && editing == old(editing) && creatureName == old(creatureName)
        && eats == old(eats) && color == old(color)
      ensures Trim(old(creatureName)) != "" && old(editing) == None ==>
        creatures == old(creatures) + [Record(old(creatureName), old(eats), old(color))]
        && FormIsReset() && editing == None
      ensures Trim(old(creatureName)) != "" && old(editing) != None ==>
        creatures == ReplaceAt(old(creatures), old(editing).value, Record(old(creatureName), old(eats), old(color)))
        && FormIsReset() && editing == None
      ensures old(Valid()) ==> Valid()
    {
      if editing != None {
        EditCreature();
      } else {
        AddCreature();
      }
    }
  }

  /** Adding the same name twice keeps both records: add does not check uniqueness. */
  method DuplicateNamesAccepted() returns (names: seq<string>)
    ensures names == ["Fox", "Fox"]
  {
    var app := new FoodWebApp();
    TrimFixedPoint("Fox");
    assert Trim("Fox") == "Fox";
    app.SetCreatureName("Fox");
    app.AddCreature();
    assert app.creatures[0].name == "Fox";
    app.SetCreatureName("Fox");
    app.AddCreature();
    assert |app.creatures| == 2;
    names := [app.creatures[0].name, app.creatures[1].name];
  }
}
