/** The `TaskStatus` enum of data/TaskStatus.kt and its lookup by display name. */
module Status {
  import opened Wrappers
  import opened Text

  datatype TaskStatus = Pendiente | Completada | Cancelada {

    /** The text the constant carries, as shown in the status spinner and stored in the file. */
    function DisplayName(): (name: string)
      ensures name != [] && ',' !in name && HasNoLineTerminator(name)
    {
      match this
      case Pendiente => "Pendiente"
      case Completada => "Completada"
      case Cancelada => "Cancelada"
    }
  }

  /** Kotlin's `values()`: every constant, in declaration order. */
  const AllStatuses: seq<TaskStatus> := [Pendiente, Completada, Cancelada]

  /** `values()` lists every constant exactly once. */
  lemma AllStatusesComplete(s: TaskStatus)
    ensures s in AllStatuses
    ensures multiset(AllStatuses)[s] == 1
  {
  }

  /** Kotlin's `find`: the first candidate whose display name equals `name` exactly. */
  function FindByName(candidates: seq<TaskStatus>, name: string): (r: Option<TaskStatus>)
    ensures r.Some? ==> r.value in candidates && r.value.DisplayName() == name
    ensures r.None? <==> forall i :: 0 <= i < |candidates| ==> candidates[i].DisplayName() != name
  {
    if candidates == [] then None
    else if candidates[0].DisplayName() == name then Some(candidates[0])
    else
      assert forall c | c in candidates[1..] :: c in candidates;
      FindByName(candidates[1..], name)
  }

  /** Of several candidates with the name, `find` returns the first. */
  lemma {:induction false} FindByNameFirst(candidates: seq<TaskStatus>, name: string, i: nat)
    requires i < |candidates| && candidates[i].DisplayName() == name
    requires forall j :: 0 <= j < i ==> candidates[j].DisplayName() != name
    ensures FindByName(candidates, name) == Some(candidates[i])
  {
    if i > 0 {
      FindByNameFirst(candidates[1..], name, i - 1);
    }
  }

  /** `TaskStatus.fromDisplayName`: case-sensitive exact match over `values()`. */
  function FromDisplayName(name: string): (r: Option<TaskStatus>)
    ensures r.Some? ==> r.value.DisplayName() == name
    ensures r.None? <==> name != "Pendiente" && name != "Completada" && name != "Cancelada"
  {
    assert AllStatuses[0].DisplayName() == "Pendiente";
    assert AllStatuses[1].DisplayName() == "Completada";
    assert AllStatuses[2].DisplayName() == "Cancelada";
    FindByName(AllStatuses, name)
  }

  /** No two constants share a display name. */
  lemma DisplayNamesDistinct(a: TaskStatus, b: TaskStatus)
    ensures a.DisplayName() == b.DisplayName() ==> a == b
  {
    if a != b {
      assert a.DisplayName()[1] != b.DisplayName()[1] || |a.DisplayName()| != |b.DisplayName()|;
    }
  }

  /** The lookup finds every constant by its own display name, and only that constant. */
  lemma FromDisplayNameExact(name: string, c: TaskStatus)
    ensures FromDisplayName(name) == Some(c) <==> c.DisplayName() == name
  {
    if c.DisplayName() == name {
      var r := FromDisplayName(name);
      DisplayNamesDistinct(r.value, c);
    }
  }
}
