/**
 * The settings page (components/Config.tsx): local copies of the mechanics and equipment
 * lookup lists that the page edits, the operator and unit fields, and the save that hands the
 * lists back to the application.
 */
module Config {
  import opened TextUtil
  import opened Seqs
  import opened Wrappers

  const DEFAULT_OPERATOR: string := "ADMIN FOREST"
  const DEFAULT_UNIT: string := "EXCALIBUR-NORTE"

  /** The two lookup lists, which the page handles alike. */
  datatype Lookup = Mechanics | Equipment

  /** Every value occurs at most once. */
  predicate NoDuplicates(s: seq<string>) {
    forall x | x in s :: multiset(s)[x] <= 1
  }

  /** `value => value !== name`. */
  function IsNot(name: string): string -> bool {
    (value: string) => value != name
  }

  /**
   * `hasChanges`: a local list differs from the one the page was given (JSON texts of string
   * arrays are equal exactly when the arrays are), or the operator or unit left its default.
   */
  predicate Changed(localMechanics: seq<string>, mechanics: seq<string>, localEquipment: seq<string>,
                    equipment: seq<string>, operator: string, unit: string)
  {
    localMechanics != mechanics || localEquipment != equipment || operator != DEFAULT_OPERATOR || unit != DEFAULT_UNIT
  }

  /** Adding a value that is not in the list keeps it free of duplicates. */
  lemma AddKeepsNoDuplicates(s: seq<string>, v: string)
    requires NoDuplicates(s) && v !in s
    ensures NoDuplicates(s + [v])
  {
    forall x ensures multiset(s + [v])[x] <= 1 {
      assert multiset(s + [v]) == multiset(s) + multiset{v};
    }
  }

  /** Removing keeps a list free of duplicates. */
  lemma RemoveKeepsNoDuplicates(s: seq<string>, name: string)
    requires NoDuplicates(s)
    ensures NoDuplicates(Filter(s, IsNot(name)))
  {
    forall x ensures multiset(Filter(s, IsNot(name)))[x] <= 1 {
      FilterMultiplicity(s, IsNot(name), x);
    }
  }

  /** Removing drops every entry equal to the name and keeps the other entries, in order. */
  lemma RemoveDropsAll(s: seq<string>, name: string)
    ensures name !in Filter(s, IsNot(name))
    ensures IsSubsequence(Filter(s, IsNot(name)), s)
    ensures forall x :: x != name ==> multiset(Filter(s, IsNot(name)))[x] == multiset(s)[x]
  {
    FilterIsSubsequence(s, IsNot(name));
    forall x | x != name ensures multiset(Filter(s, IsNot(name)))[x] == multiset(s)[x] {
      FilterMultiplicity(s, IsNot(name), x);
    }
  }

  /** Once the application holds the saved lists, only the operator and unit count as changes. */
  lemma SavedListsUnchanged(m: seq<string>, e: seq<string>, operator: string, unit: string)
    ensures Changed(m, m, e, e, operator, unit) <==> operator != DEFAULT_OPERATOR || unit != DEFAULT_UNIT
  {
  }

  class ConfigPage {
    /** The lists the page was given by the application. */
    var mechanics: seq<string>
    var equipment: seq<string>
    var localMechanics: seq<string>
    var localEquipment: seq<string>
    var operator: string
    var unit: string
    var newMechanic: string
    var newEquipment: string
    var isSaved: bool

    constructor (mechanics: seq<string>, equipment: seq<string>)
      ensures this.mechanics == mechanics && this.equipment == equipment
      ensures localMechanics == mechanics && localEquipment == equipment
      ensures operator == DEFAULT_OPERATOR && unit == DEFAULT_UNIT
      ensures newMechanic == "" && newEquipment == "" && !isSaved
      ensures !HasChanges()
    {
      this.mechanics, this.equipment := mechanics, equipment;
      localMechanics, localEquipment := mechanics, equipment;
      operator, unit := DEFAULT_OPERATOR, DEFAULT_UNIT;
      newMechanic, newEquipment := "", "";
      isSaved := false;
    }

    function List(which: Lookup): seq<string>
      reads this
    {
      match which
      case Mechanics => localMechanics
      case Equipment => localEquipment
    }

    function Input(which: Lookup): string
      reads this
    {
      match which
      case Mechanics => newMechanic
      case Equipment => newEquipment
    }

    predicate HasChanges()
      reads this
    {
      Changed(localMechanics, mechanics, localEquipment, equipment, operator, unit)
    }

    /** Typing into the input of a list: the text is upper-cased. */
    method TypeEntry(which: Lookup, text: string)
      modifies this
      ensures Input(which) == Upper(text)
      ensures which == Mechanics ==> newEquipment == old(newEquipment)
      ensures which == Equipment ==> newMechanic == old(newMechanic)
      ensures localMechanics == old(localMechanics) && localEquipment == old(localEquipment)
      ensures mechanics == old(mechanics) && equipment == old(equipment)
      ensures operator == old(operator) && unit == old(unit) && isSaved == old(isSaved)
    {
      match which
      case Mechanics => newMechanic := Upper(text);
      case Equipment => newEquipment := Upper(text);
    }

    /**
     * `handleAddMechanic` / `handleAddEquipment`: a non-empty input whose upper-cased text
     * is not in the list goes at its end and the input clears; otherwise nothing changes. A
     * list without duplicates stays without.
     */
    method Add(which: Lookup)
      modifies this
      ensures var v := Upper(old(Input(which)));
              if old(Input(which)) != "" && v !in old(List(which))
              then List(which) == old(List(which)) + [v] && Input(which) == ""
              else List(which) == old(List(which)) && Input(which) == old(Input(which))
      ensures old(NoDuplicates(List(which))) ==> NoDuplicates(List(which))
      ensures which == Mechanics ==> localEquipment == old(localEquipment) && newEquipment == old(newEquipment)
      ensures which == Equipment ==> localMechanics == old(localMechanics) && newMechanic == old(newMechanic)
      ensures mechanics == old(mechanics) && equipment == old(equipment)
      ensures operator == old(operator) && unit == old(unit) && isSaved == old(isSaved)
    {
      var input := Input(which);
      var list := List(which);
      if input != "" && Upper(input) !in list {
        if NoDuplicates(list) {
          AddKeepsNoDuplicates(list, Upper(input));
        }
        match which
        case Mechanics =>
          localMechanics := localMechanics + [Upper(input)];
          newMechanic := "";
        case Equipment =>
          localEquipment := localEquipment + [Upper(input)];
          newEquipment := "";
      }
    }

    /**
     * `handleRemoveMechanic` / `handleRemoveEquipment`: every entry equal to the name goes,
     * the others stay in order. A list without duplicates stays without.
     */
    method Remove(which: Lookup, name: string)
      modifies this
      ensures List(which) == Filter(old(List(which)), IsNot(name))
      ensures old(NoDuplicates(List(which))) ==> NoDuplicates(List(which))
      ensures which == Mechanics ==> localEquipment == old(localEquipment)
      ensures which == Equipment ==> localMechanics == old(localMechanics)
      ensures newMechanic == old(newMechanic) && newEquipment == old(newEquipment)
      ensures mechanics == old(mechanics) && equipment == old(equipment)
      ensures operator == old(operator) && unit == old(unit) && isSaved == old(isSaved)
    {
      if NoDuplicates(List(which)) {
        RemoveKeepsNoDuplicates(List(which), name);
      }
      match which
      case Mechanics => localMechanics := Filter(localMechanics, IsNot(name));
      case Equipment => localEquipment := Filter(localEquipment, IsNot(name));
    }

    /** The operator field upper-cases what is typed; the unit is one of the options as given. */
    method SetProfile(newOperator: string, newUnit: string)
      modifies this
      ensures operator == Upper(newOperator) && unit == newUnit
      ensures localMechanics == old(localMechanics) && localEquipment == old(localEquipment)
      ensures mechanics == old(mechanics) && equipment == old(equipment)
      ensures newMechanic == old(newMechanic) && newEquipment == old(newEquipment) && isSaved == old(isSaved)
    {
      operator := Upper(newOperator);
      unit := newUnit;
    }

    /**
     * `handleSave`: without changes nothing happens and nothing is handed over; otherwise both
     * local lists are handed to the application and the page shows that it saved.
     */
    method Save() returns (handed: Option<(seq<string>, seq<string>)>)
      modifies this
      ensures handed.None? <==> !old(HasChanges())
      ensures handed.Some? ==> handed.value == (localMechanics, localEquipment) && isSaved
      ensures handed.None? ==> isSaved == old(isSaved)
      ensures localMechanics == old(localMechanics) && localEquipment == old(localEquipment)
      ensures mechanics == old(mechanics) && equipment == old(equipment)
      ensures operator == old(operator) && unit == old(unit)
      ensures newMechanic == old(newMechanic) && newEquipment == old(newEquipment)
    {
      if !HasChanges() {
        return None;
      }
      handed := Some((localMechanics, localEquipment));
      isSaved := true;
    }

    /** The application re-renders the page with the lists it now holds. */
    method ReceiveLists(mechanics: seq<string>, equipment: seq<string>)
      modifies this
      ensures this.mechanics == mechanics && this.equipment == equipment
      ensures localMechanics == old(localMechanics) && localEquipment == old(localEquipment)
      ensures operator == old(operator) && unit == old(unit) && isSaved == old(isSaved)
      ensures newMechanic == old(newMechanic) && newEquipment == old(newEquipment)
    {
      this.mechanics, this.equipment := mechanics, equipment;
    }

    /** The end of the two-second feedback after a save. */
    method SavedFeedbackEnds()
      modifies this
      ensures !isSaved
      ensures localMechanics == old(localMechanics) && localEquipment == old(localEquipment)
      ensures mechanics == old(mechanics) && equipment == old(equipment)
      ensures operator == old(operator) && unit == old(unit)
      ensures newMechanic == old(newMechanic) && newEquipment == old(newEquipment)
    {
      isSaved := false;
    }
  }
}
