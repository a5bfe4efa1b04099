/** The constant persona registry and its two accessors. */
module Personas {
  import opened Wrappers

  datatype Targets = Targets(wpm: seq<int>, maxFillersPerMin: int)

  datatype Persona = Persona(id: string, name: string, description: string, targets: Targets)

  /** `PERSONAS`: the entries of the dictionary, in insertion order. */
  const Table: seq<(string, Persona)> := [
    ("ted", Persona("ted", "TED Speaker",
                    "Inspiring, story-driven, calm but energetic.",
                    Targets([140, 170], 3))),
    ("leader", Persona("leader", "Confident Leader",
                       "Authoritative, concise, decisive.",
                       Targets([130, 160], 2))),
    ("teacher", Persona("teacher", "Engaging Teacher",
                        "Clear, patient, explanatory with measured pacing.",
                        Targets([110, 140], 2)))
  ]

  const Ids: seq<string> := ["ted", "leader", "teacher"]

  /** `dict.get` over an ordered list of entries: the value of the first
      entry with the key. */
  function Find(entries: seq<(string, Persona)>, key: string): (r: Option<Persona>)
    ensures r.None? <==> forall i :: 0 <= i < |entries| ==> entries[i].0 != key
    ensures r.Some? ==> exists i :: 0 <= i < |entries| && entries[i] == (key, r.value)
  {
    if entries == [] then None
    else if entries[0].0 == key then Some(entries[0].1)
    else
      var r := Find(entries[1..], key);
      assert r.Some? ==> exists i :: 0 <= i < |entries| - 1 && entries[1..][i] == (key, r.value);
      r
  }

  /** `get_persona`: the persona registered under `personaId`, or `None`. */
  function GetPersona(personaId: string): (r: Option<Persona>)
    ensures r.Some? <==> personaId in Ids
    ensures r.Some? ==> r.value.id == personaId
  {
    Find(Table, personaId)
  }

  /** `get_personas`: the registered personas in table order, each the one
      `get_persona` returns for its own id. */
  function GetPersonas(): (ps: seq<Persona>)
    ensures |ps| == |Ids| && forall i :: 0 <= i < |ps| ==> ps[i].id == Ids[i]
    ensures forall i :: 0 <= i < |ps| ==> GetPersona(ps[i].id) == Some(ps[i])
  {
    seq(|Table|, i requires 0 <= i < |Table| => Table[i].1)
  }

  /** Every persona has a two-element pace band with low <= high and a
      positive filler tolerance. */
  predicate WellFormed(p: Persona)
  {
    |p.targets.wpm| == 2 && p.targets.wpm[0] <= p.targets.wpm[1] && p.targets.maxFillersPerMin > 0
  }

  lemma RegistryWellFormed(personaId: string)
    requires GetPersona(personaId).Some?
    ensures WellFormed(GetPersona(personaId).value)
  {
  }

  /** The registered targets. */
  lemma RegistryValues()
    ensures GetPersona("ted").value.targets == Targets([140, 170], 3)
    ensures GetPersona("leader").value.targets == Targets([130, 160], 2)
    ensures GetPersona("teacher").value.targets == Targets([110, 140], 2)
  {
  }
}
