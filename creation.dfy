/** The field selection of `__add_item` and `__add_prop`: one pass over the
    mapping list that assigns the label, the description and, for a
    property, the datatype, a later entry overwriting an earlier one. */
module Creation {
  import opened Wrappers
  import opened Base
  import opened Mapping

  /** The local variable an entry assigns. */
  datatype Slot = LabelSlot | DescriptionSlot | DatatypeSlot

  /** What a creation request is built from. */
  datatype CreationFields = CreationFields(name: string, description: string, propertyType: Option<string>)

  /** The variable an entry assigns in the loop, if any; datatype entries
      are only read when a property is created. */
  function SlotOf(f: FieldDesc, forProperty: bool): Option<Slot>
  {
    match f
    case LabelField(_) => Some(LabelSlot)
    case DescriptionField(_, _) => Some(DescriptionSlot)
    case DatatypeField(_) => if forProperty then Some(DatatypeSlot) else None
    case _ => None
  }

  /** The value an assigning entry yields, or what it raises: a description
      with index -1 takes its `config.value`, every other entry its cell. */
  function EntryValue(f: FieldDesc, row: Row): Result<string, Error>
  {
    match f
    case DescriptionField(idx, config) =>
      if idx == -1 then (if config.Some? then Ok(config.value) else Err(MissingConfigValue))
      else Cell(row, idx)
    case LabelField(idx) => Cell(row, idx)
    case DatatypeField(idx) => Cell(row, idx)
    case _ => Ok("")
  }

  /** The first error the loop over fs raises. */
  function FirstError(fs: seq<FieldDesc>, row: Row, forProperty: bool): Option<Error>
  {
    if fs == [] then None
    else if FirstError(fs[..|fs| - 1], row, forProperty).Some? then FirstError(fs[..|fs| - 1], row, forProperty)
    else
      var f := fs[|fs| - 1];
      if SlotOf(f, forProperty).Some? && EntryValue(f, row).Err? then Some(EntryValue(f, row).error) else None
  }

  /** The value left in a variable: that of the last entry assigning it. */
  function LastAssigned(fs: seq<FieldDesc>, row: Row, forProperty: bool, slot: Slot): Option<string>
  {
    if fs == [] then None
    else
      var f := fs[|fs| - 1];
      if SlotOf(f, forProperty) == Some(slot) && EntryValue(f, row).Ok? then Some(EntryValue(f, row).value)
      else LastAssigned(fs[..|fs| - 1], row, forProperty, slot)
  }

  /** Some entry of fs assigns slot. */
  predicate Present(fs: seq<FieldDesc>, forProperty: bool, slot: Slot)
  {
    exists i :: 0 <= i < |fs| && SlotOf(fs[i], forProperty) == Some(slot)
  }

  /** The selection the creation methods make before sending anything. */
  function Selected(fs: seq<FieldDesc>, row: Row, forProperty: bool): Result<CreationFields, Error>
  {
    if FirstError(fs, row, forProperty).Some? then Err(FirstError(fs, row, forProperty).value)
    else
      var name := LastAssigned(fs, row, forProperty, LabelSlot);
      var description := LastAssigned(fs, row, forProperty, DescriptionSlot);
      var propertyType := LastAssigned(fs, row, forProperty, DatatypeSlot);
      if name.None? || description.None? || (forProperty && propertyType.None?) then Err(MissingCreationFields)
      else Ok(CreationFields(name.value, description.value, propertyType))
  }

  lemma {:induction false} FirstErrorPrefix(fs: seq<FieldDesc>, j: nat, row: Row, forProperty: bool)
    requires j <= |fs| && FirstError(fs[..j], row, forProperty).Some?
    ensures FirstError(fs, row, forProperty) == FirstError(fs[..j], row, forProperty)
    decreases |fs|
  {
    if j < |fs| {
      assert fs[..|fs| - 1][..j] == fs[..j];
      FirstErrorPrefix(fs[..|fs| - 1], j, row, forProperty);
    } else {
      assert fs[..j] == fs;
    }
  }

  /** Without errors, a variable ends up assigned exactly when some entry
      assigns it. */
  lemma {:induction false} AssignedIffPresent(fs: seq<FieldDesc>, row: Row, forProperty: bool, slot: Slot)
    requires FirstError(fs, row, forProperty).None?
    ensures LastAssigned(fs, row, forProperty, slot).Some? <==> Present(fs, forProperty, slot)
  {
    if fs != [] {
      var init := fs[..|fs| - 1];
      AssignedIffPresent(init, row, forProperty, slot);
      if Present(init, forProperty, slot) {
        var i :| 0 <= i < |init| && SlotOf(init[i], forProperty) == Some(slot);
        assert fs[i] == init[i];
      }
      if Present(fs, forProperty, slot) && SlotOf(fs[|fs| - 1], forProperty) != Some(slot) {
        var i :| 0 <= i < |fs| && SlotOf(fs[i], forProperty) == Some(slot);
        assert init[i] == fs[i];
      }
    }
  }

  /** Creation fails unless every assigning entry can be read and the list
      supplies a label and a description, and, for a property, a datatype. */
  lemma CreationOutcome(fs: seq<FieldDesc>, row: Row, forProperty: bool)
    ensures Selected(fs, row, forProperty).Ok? <==>
      FirstError(fs, row, forProperty).None? &&
      Present(fs, forProperty, LabelSlot) && Present(fs, forProperty, DescriptionSlot) &&
      (forProperty ==> Present(fs, forProperty, DatatypeSlot))
    ensures Selected(fs, row, forProperty).Ok? ==> (Selected(fs, row, forProperty).value.propertyType.Some? <==> forProperty)
  {
    if FirstError(fs, row, forProperty).None? {
      AssignedIffPresent(fs, row, forProperty, LabelSlot);
      AssignedIffPresent(fs, row, forProperty, DescriptionSlot);
      AssignedIffPresent(fs, row, forProperty, DatatypeSlot);
      if !forProperty {
        assert !Present(fs, forProperty, DatatypeSlot);
      }
    }
  }

  /** A later entry overwrites what earlier entries assigned to the same
      variable and leaves the others alone. */
  lemma LaterEntryOverwrites(fs: seq<FieldDesc>, f: FieldDesc, row: Row, forProperty: bool, slot: Slot)
    requires SlotOf(f, forProperty).Some? && EntryValue(f, row).Ok?
    ensures LastAssigned(fs + [f], row, forProperty, slot) ==
      if SlotOf(f, forProperty) == Some(slot) then Some(EntryValue(f, row).value)
      else LastAssigned(fs, row, forProperty, slot)
  {
    assert (fs + [f])[..|fs|] == fs;
  }

  /** The loop of `__add_item` (forProperty false) and `__add_prop`
      (forProperty true). */
  method SelectCreationFields(fields: seq<FieldDesc>, row: Row, forProperty: bool) returns (r: Result<CreationFields, Error>)
    ensures r == Selected(fields, row, forProperty)
  {
    var name: Option<string> := None;
    var description: Option<string> := None;
    var propertyType: Option<string> := None;
    for i := 0 to |fields|
      invariant FirstError(fields[..i], row, forProperty).None?
      invariant name == LastAssigned(fields[..i], row, forProperty, LabelSlot)
      invariant description == LastAssigned(fields[..i], row, forProperty, DescriptionSlot)
      invariant propertyType == LastAssigned(fields[..i], row, forProperty, DatatypeSlot)
    {
      var f := fields[i];
      assert fields[..i + 1][..i] == fields[..i];
      var slot := SlotOf(f, forProperty);
      if slot.Some? {
        var v := EntryValue(f, row);
        if v.Err? {
          FirstErrorPrefix(fields, i + 1, row, forProperty);
          return Err(v.error);
        }
        match slot.value
        case LabelSlot => name := Some(v.value);
        case DescriptionSlot => description := Some(v.value);
        case DatatypeSlot => propertyType := Some(v.value);
      }
    }
    assert fields[..|fields|] == fields;
    if name.None? || description.None? || (forProperty && propertyType.None?) {
      return Err(MissingCreationFields);
    }
    return Ok(CreationFields(name.value, description.value, propertyType));
  }
}
