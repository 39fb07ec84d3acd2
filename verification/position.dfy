/** The five job positions, each with an immutable base salary and seniority level. */
module Positions {
  import opened Wrappers

  datatype Position = PREZES | WICEPREZES | MANAGER | PROGRAMISTA | STAZYSTA {

    /** The minimum expected salary for the role. */
    function BaseSalary(): (r: real)
      ensures r > 0.0
    {
      match this
      case PREZES => 25000.0
      case WICEPREZES => 18000.0
      case MANAGER => 12000.0
      case PROGRAMISTA => 8000.0
      case STAZYSTA => 3000.0
    }

    /** Seniority rank: 1 is the most senior. */
    function Level(): (r: int)
      ensures 1 <= r <= 5
    {
      match this
      case PREZES => 1
      case WICEPREZES => 2
      case MANAGER => 3
      case PROGRAMISTA => 4
      case STAZYSTA => 5
    }

    /** `Enum.name()` */
    function Name(): string {
      match this
      case PREZES => "PREZES"
      case WICEPREZES => "WICEPREZES"
      case MANAGER => "MANAGER"
      case PROGRAMISTA => "PROGRAMISTA"
      case STAZYSTA => "STAZYSTA"
    }
  }

  /** `Position.values()`, in declaration order. */
  const AllPositions: seq<Position> := [PREZES, WICEPREZES, MANAGER, PROGRAMISTA, STAZYSTA]

  /** `Position.valueOf(name)`: an exact, case-sensitive match on the constant
      name; `None` stands for the `IllegalArgumentException`. */
  function ValueOf(name: string): (r: Option<Position>)
    ensures r.Some? ==> r.value.Name() == name
    ensures r.None? <==> forall p: Position :: p.Name() != name
  {
    if name == "PREZES" then Some(PREZES)
    else if name == "WICEPREZES" then Some(WICEPREZES)
    else if name == "MANAGER" then Some(MANAGER)
    else if name == "PROGRAMISTA" then Some(PROGRAMISTA)
    else if name == "STAZYSTA" then Some(STAZYSTA)
    else None
  }

  /** Exactly five values, listed once each, with base salaries 25000, 18000,
      12000, 8000 and 3000 and levels 1 to 5 in that order. */
  lemma PositionTable()
    ensures |AllPositions| == 5
    ensures forall p: Position :: p in AllPositions
    ensures forall i, j :: 0 <= i < j < |AllPositions| ==> AllPositions[i] != AllPositions[j]
    ensures forall i :: 0 <= i < |AllPositions| ==> AllPositions[i].Level() == i + 1
    ensures [PREZES.BaseSalary(), WICEPREZES.BaseSalary(), MANAGER.BaseSalary(),
             PROGRAMISTA.BaseSalary(), STAZYSTA.BaseSalary()]
         == [25000.0, 18000.0, 12000.0, 8000.0, 3000.0]
  {
    forall p: Position
      ensures p in AllPositions
    {
      assert AllPositions[p.Level() - 1] == p;
    }
  }

  /** Levels identify positions, and a lower level number always means a
      strictly higher base salary. */
  lemma LevelOrdersBaseSalary(p: Position, q: Position)
    ensures p.Level() == q.Level() <==> p == q
    ensures p.Level() < q.Level() <==> p.BaseSalary() > q.BaseSalary()
  {
  }

  /** Every name parses back to its own position. */
  lemma ValueOfName(p: Position)
    ensures ValueOf(p.Name()) == Some(p)
  {
  }

  /** Constant names are upper case, so upper-casing the input before `valueOf`
      makes the lookup case-insensitive. */
  lemma NameHasNoLowerCase(p: Position)
    ensures forall i :: 0 <= i < |p.Name()| ==> !('a' <= p.Name()[i] <= 'z')
  {
  }
}
