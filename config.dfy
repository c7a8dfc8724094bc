/**
 * The `ClientVersions` integer enumeration of the generator's configuration:
 * the game-client versions a struct can be specialised for. A member is its
 * integer value; iteration yields the members in declared order, and version
 * ranges compare the integer values.
 */
module Config {

  /** The values the enumeration declares. */
  predicate IsMember(v: int)
  {
    v == 0 || v == 10 || v == 20 || v == 30 || v == 40 || v == 50 || v == 60 || v == 70 || v == 80 || v == 90
    || v == 71 || v == 81 || v == 91 || v == 100000
  }

  type ClientVersions = v: int | IsMember(v) witness 0

  const CLASSIC: ClientVersions := 0
  const TBC: ClientVersions := 10
  const WOTLK: ClientVersions := 20
  const CATA: ClientVersions := 30
  const MOP: ClientVersions := 40
  const WOD: ClientVersions := 50
  const LEGION: ClientVersions := 60
  const BFA: ClientVersions := 70
  const SL: ClientVersions := 80
  const DF: ClientVersions := 90
  const CLASSIC_NEW: ClientVersions := 71
  const TBC_NEW: ClientVersions := 81
  const WOTLK_NEW: ClientVersions := 91
  const ANY: ClientVersions := 100000

  /** The integer value of a member. */
  function Ordinal(v: ClientVersions): int
  {
    v
  }

  /** The member's name, as `version.name` spells it in generated code. */
  function Name(v: ClientVersions): string
  {
    if v == CLASSIC then "CLASSIC"
    else if v == TBC then "TBC"
    else if v == WOTLK then "WOTLK"
    else if v == CATA then "CATA"
    else if v == MOP then "MOP"
    else if v == WOD then "WOD"
    else if v == LEGION then "LEGION"
    else if v == BFA then "BFA"
    else if v == SL then "SL"
    else if v == DF then "DF"
    else if v == CLASSIC_NEW then "CLASSIC_NEW"
    else if v == TBC_NEW then "TBC_NEW"
    else if v == WOTLK_NEW then "WOTLK_NEW"
    else "ANY"
  }

  /** Iterating the enumeration yields its members in declaration order. */
  const Members: seq<ClientVersions> :=
    [CLASSIC, TBC, WOTLK, CATA, MOP, WOD, LEGION, BFA, SL, DF, CLASSIC_NEW, TBC_NEW, WOTLK_NEW, ANY]

  /** The range test of a versioned block: `lo <= v <= hi` on the integer values. */
  predicate InRange(v: ClientVersions, lo: ClientVersions, hi: ClientVersions)
  {
    Ordinal(lo) <= Ordinal(v) <= Ordinal(hi)
  }

  /** Iteration visits every member exactly once. */
  lemma MembersEnumerateAll()
    ensures forall v: ClientVersions :: v in Members
    ensures forall i, j :: 0 <= i < j < |Members| ==> Members[i] != Members[j]
  {
    forall v: ClientVersions ensures v in Members {
      assert IsMember(v);
      if v == CLASSIC { assert Members[0] == v; }
      else if v == TBC { assert Members[1] == v; }
      else if v == WOTLK { assert Members[2] == v; }
      else if v == CATA { assert Members[3] == v; }
      else if v == MOP { assert Members[4] == v; }
      else if v == WOD { assert Members[5] == v; }
      else if v == LEGION { assert Members[6] == v; }
      else if v == BFA { assert Members[7] == v; }
      else if v == SL { assert Members[8] == v; }
      else if v == DF { assert Members[9] == v; }
      else if v == CLASSIC_NEW { assert Members[10] == v; }
      else if v == TBC_NEW { assert Members[11] == v; }
      else if v == WOTLK_NEW { assert Members[12] == v; }
      else { assert Members[13] == v; }
    }
  }

  /** The member a name denotes, as the enumeration's lookup by name finds it; -1 for no member. */
  function Lookup(name: string): int
  {
    if name == "CLASSIC" then CLASSIC
    else if name == "TBC" then TBC
    else if name == "WOTLK" then WOTLK
    else if name == "CATA" then CATA
    else if name == "MOP" then MOP
    else if name == "WOD" then WOD
    else if name == "LEGION" then LEGION
    else if name == "BFA" then BFA
    else if name == "SL" then SL
    else if name == "DF" then DF
    else if name == "CLASSIC_NEW" then CLASSIC_NEW
    else if name == "TBC_NEW" then TBC_NEW
    else if name == "WOTLK_NEW" then WOTLK_NEW
    else if name == "ANY" then ANY
    else -1
  }

  /** Looking a member up by its name gives the member back. */
  lemma LookupName(v: ClientVersions)
    ensures Lookup(Name(v)) == v
  {
    assert IsMember(v);
  }

  /** Every member has its own name, so generated specialisations never collide. */
  lemma NamesDistinct()
    ensures forall i, j :: 0 <= i < j < |Members| ==> Name(Members[i]) != Name(Members[j])
  {
    MembersEnumerateAll();
    forall i, j | 0 <= i < j < |Members| ensures Name(Members[i]) != Name(Members[j]) {
      LookupName(Members[i]);
      LookupName(Members[j]);
    }
  }

  /** Declared order is not ordinal order: CLASSIC_NEW (71) is iterated after DF (90). */
  lemma DeclaredOrderIsNotOrdinalOrder()
    ensures Members[9] == DF && Members[10] == CLASSIC_NEW
    ensures Ordinal(Members[10]) < Ordinal(Members[9])
  {
  }

  /** The ordinals of CLASSIC through DF grow in steps of ten. */
  lemma MainlineStepsOfTen()
    ensures Ordinal(Members[0]) == 0
    ensures forall i :: 0 <= i < 9 ==> Ordinal(Members[i + 1]) == Ordinal(Members[i]) + 10
  {
  }

  /** ANY exceeds every other member and is itself iterated (last). */
  lemma AnyIsMaximal()
    ensures forall v: ClientVersions :: v != ANY ==> Ordinal(v) < Ordinal(ANY)
    ensures Members[|Members| - 1] == ANY
  {
    forall v: ClientVersions | v != ANY ensures Ordinal(v) < Ordinal(ANY) {
      assert IsMember(v);
    }
  }

  /** Because ranges compare ordinals, CLASSIC_NEW lies inside [BFA, SL]. */
  lemma ClassicNewInsideBfaSl()
    ensures InRange(CLASSIC_NEW, BFA, SL)
    ensures !InRange(CLASSIC_NEW, CLASSIC, CLASSIC)
  {
  }
}
