/**
 * A player profile: a name unique among the registered players, a password,
 * a score and one completion flag per challenge of the progression mode
 * (6 levels x 3 challenges, flag 3 * level + challenge).
 */
module Profiles {
  import opened Results
  import opened Text

  /** The number of completion flags. */
  const FlagCount := 18

  /** What String.trim() reduces to nothing: only characters up to the space. */
  predicate Blank(s: string) {
    forall i | 0 <= i < |s| :: s[i] <= ' '
  }

  /** Java's message for an array index outside 0 .. length - 1. */
  function OutOfBounds(index: int, length: int): string {
    "Index " + IntToString(index) + " out of bounds for length " + IntToString(length)
  }

  class Profil {
    var name: string
    const pwd: string
    var score: int
    const challenge: array<bool>

    ghost predicate Valid()
      reads this
    {
      challenge.Length == FlagCount
    }

    /** Whether no registered player already uses `name` (names compare case-sensitively). */
    static method GoodName(roster: seq<Profil>, name: string) returns (r: bool)
      ensures r <==> forall p | p in roster :: p.name != name
    {
      var i := 0;
      while i < |roster|
        invariant 0 <= i <= |roster|
        invariant forall k | 0 <= k < i :: roster[k].name != name
      {
        if roster[i].name == name {
          return false;
        }
        i := i + 1;
      }
      return true;
    }

    /** A profile whose arguments have been checked by Create: score 0 and no flag set. */
    constructor (name: string, pwd: string)
      ensures Valid() && this.name == name && this.pwd == pwd && score == 0
      ensures forall i | 0 <= i < FlagCount :: !challenge[i]
      ensures fresh(challenge)
    {
      this.name := name;
      this.pwd := pwd;
      score := 0;
      challenge := new bool[FlagCount](_ => false);
    }

    /**
     * Java's constructor: the name must not be blank nor taken, the password
     * must not be empty and must equal its confirmation, checked in that order.
     */
    static method Create(name: string, pwd: string, pwd2: string, roster: seq<Profil>) returns (r: Result<Profil>)
      ensures r.Err? <==> Blank(name) || (exists p | p in roster :: p.name == name) || pwd == [] || pwd != pwd2
      ensures r.Err? && Blank(name) ==> r.message == "Le nom ne peut pas être vide."
      ensures r.Err? && !Blank(name) && (exists p | p in roster :: p.name == name) ==> r.message == "Le nom est incorrect."
      ensures r.Err? && !Blank(name) && !(exists p | p in roster :: p.name == name) && pwd == [] ==>
        r.message == "Le mot de passe ne peut pas être vide."
      ensures r.Err? && !Blank(name) && !(exists p | p in roster :: p.name == name) && pwd != [] ==>
        r.message == "Les mots de passe ne correspondent pas."
      ensures r.Ok? ==> fresh(r.value) && r.value.Valid() && r.value.name == name && r.value.pwd == pwd && r.value.score == 0
      ensures r.Ok? ==> forall i | 0 <= i < FlagCount :: !r.value.challenge[i]
    {
      if Blank(name) {
        return Err("Le nom ne peut pas être vide.");
      }
      var good := GoodName(roster, name);
      if !good {
        return Err("Le nom est incorrect.");
      }
      if pwd == [] {
        return Err("Le mot de passe ne peut pas être vide.");
      }
      if pwd != pwd2 {
        return Err("Les mots de passe ne correspondent pas.");
      }
      var p := new Profil(name, pwd);
      r := Ok(p);
    }

    /** Sets flag `index`; an index outside the array is refused and changes nothing. */
    method FinishChallengeAt(index: int) returns (r: Result<()>)
      requires Valid()
      modifies challenge
      ensures r.Err? <==> index < 0 || index >= FlagCount
      ensures r.Err? ==> r.message == OutOfBounds(index, FlagCount)
      ensures forall i | 0 <= i < FlagCount :: challenge[i] == (old(challenge[i]) || i == index)
    {
      if index < 0 || index >= challenge.Length {
        return Err(OutOfBounds(index, challenge.Length));
      }
      challenge[index] := true;
      r := Ok(());
    }

    /**
     * Records challenge `ch` of level `step` (both from 0): flag 3 * step + ch
     * for a level from 0 to 5; any other level changes nothing.
     */
    method FinishChallenge(step: int, ch: int) returns (r: Result<()>)
      requires Valid()
      modifies challenge
      ensures r.Err? <==> 0 <= step <= 5 && !(0 <= 3 * step + ch < FlagCount)
      ensures forall i | 0 <= i < FlagCount ::
        challenge[i] == (old(challenge[i]) || (0 <= step <= 5 && i == 3 * step + ch))
    {
      r := Ok(());
      if step == 0 {
        r := FinishChallengeAt(ch);
      }
      if step == 1 {
        r := FinishChallengeAt(ch + 3);
      }
      if step == 2 {
        r := FinishChallengeAt(ch + 6);
      }
      if step == 3 {
        r := FinishChallengeAt(ch + 9);
      }
      if step == 4 {
        r := FinishChallengeAt(ch + 12);
      }
      if step == 5 {
        r := FinishChallengeAt(ch + 15);
      }
    }

    /**
     * Level `step` (from 1) is open: the first always, level k from 2 to 6
     * once a challenge of level k - 1 is completed, no other.
     */
    function HasPermission(step: int): (r: bool)
      reads this, challenge
      requires Valid()
      ensures r <==> step == 1 || (2 <= step <= 6 && exists i | 3 * (step - 2) <= i < 3 * (step - 2) + 3 :: challenge[i])
    {
      if step == 1 then true
      else if step == 2 && (challenge[0] || challenge[1] || challenge[2]) then true
      else if step == 3 && (challenge[3] || challenge[4] || challenge[5]) then true
      else if step == 4 && (challenge[6] || challenge[7] || challenge[8]) then true
      else if step == 5 && (challenge[9] || challenge[10] || challenge[11]) then true
      else if step == 6 && (challenge[12] || challenge[13] || challenge[14]) then true
      else false
    }

    /**
     * "Aucun" when no flag is set; otherwise, for the highest set flag i,
     * the number i / 3 + 2 followed by a space (one more than the level
     * from 1 the flag belongs to).
     */
    method GetLastValidate() returns (s: string)
      requires Valid()
      ensures (forall i | 0 <= i < FlagCount :: !challenge[i]) ==> s == "Aucun"
      ensures (exists i | 0 <= i < FlagCount :: challenge[i]) ==>
        exists i | 0 <= i < FlagCount :: challenge[i] && (forall j | i < j < FlagCount :: !challenge[j]) &&
          s == IntToString(i / 3 + 2) + " "
    {
      var i := challenge.Length - 1;
      while i >= 0
        invariant -1 <= i < FlagCount
        invariant forall j | i < j < FlagCount :: !challenge[j]
      {
        if challenge[i] {
          var step := i / 3 + 1;
          return IntToString(step + 1) + " ";
        }
        i := i - 1;
      }
      return "Aucun";
    }
  }
}
