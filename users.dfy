/** The PIN lock: a table of users, of which the first one's PIN unlocks the
    journal. A PIN is a four-digit number. */
module Users {
  import opened Wrappers
  import opened Models

  /** A stored user record. */
  datatype User = User(id: Guid, pin: int)

  /** The `ArgumentException` raised for a PIN outside 1000..9999. */
  datatype PinError = InvalidPin(pin: int)

  /** A four-digit PIN: 1000 to 9999. */
  predicate IsFourDigit(pin: int) {
    1000 <= pin <= 9999
  }

  /** The users table. */
  class UserStore {
    var users: seq<User>

    constructor()
      ensures users == []
    {
      users := [];
    }

    /** The PIN of the first user (`FirstOrDefaultAsync`), if there is one. */
    function StoredPin(): (r: Option<int>)
      reads this
      ensures r.None? <==> users == []
      ensures r.Some? ==> users != [] && r.value == users[0].pin
    {
      if users == [] then None else Some(users[0].pin)
    }

    /** `ValidatePinAsync`: the entered PIN is the stored one. No range check
        is made. */
    function ValidatePin(pin: int): (r: bool)
      reads this
      ensures r ==> users != []
      ensures r <==> StoredPin() == Some(pin)
    {
      users != [] && users[0].pin == pin
    }

    /** `HasPinAsync`: some four-digit PIN unlocks the store. */
    function HasPin(): (r: bool)
      reads this
      ensures r <==> exists p :: IsFourDigit(p) && ValidatePin(p)
    {
      var ok := users != [] && IsFourDigit(users[0].pin);
      assert ok ==> ValidatePin(users[0].pin);
      ok
    }

    /** At most one PIN unlocks the store. */
    lemma OnePinValidates(p: int, q: int)
      requires ValidatePin(p) && ValidatePin(q)
      ensures p == q
    {
    }

    /** `CreatePinAsync` with the fresh id `newId`: a PIN outside 1000..9999 is
        refused and changes nothing; otherwise every user is replaced by one
        holding the PIN, which then, and no other, unlocks the store. */
    method CreatePin(pin: int, newId: Guid) returns (r: Outcome<PinError>)
      modifies this
      ensures !IsFourDigit(pin) ==> r == Fail(InvalidPin(pin)) && users == old(users)
      ensures IsFourDigit(pin) ==> r == Pass && users == [User(newId, pin)]
      ensures IsFourDigit(pin) ==> HasPin() && forall q :: ValidatePin(q) <==> q == pin
    {
      if pin < 1000 || pin > 9999 {
        return Fail(InvalidPin(pin));
      }
      users := [];
      users := users + [User(newId, pin)];
      r := Pass;
    }

    /** `ChangePinAsync`: a new PIN outside 1000..9999 is refused before the
        old PIN is looked at; a missing user or a wrong old PIN gives `false`
        and changes nothing; otherwise the first user's PIN becomes the new
        one, which then, and no other, unlocks the store. */
    method ChangePin(oldPin: int, newPin: int) returns (r: Result<bool, PinError>)
      modifies this
      ensures !IsFourDigit(newPin) ==> r == Failure(InvalidPin(newPin)) && users == old(users)
      ensures IsFourDigit(newPin) && !old(ValidatePin(oldPin)) ==> r == Success(false) && users == old(users)
      ensures IsFourDigit(newPin) && old(ValidatePin(oldPin)) ==>
        && r == Success(true) && users == old(users)[0 := old(users)[0].(pin := newPin)]
        && HasPin() && (forall q :: ValidatePin(q) <==> q == newPin)
    {
      if newPin < 1000 || newPin > 9999 {
        return Failure(InvalidPin(newPin));
      }
      if users == [] || users[0].pin != oldPin {
        return Success(false);
      }
      users := users[0 := users[0].(pin := newPin)];
      r := Success(true);
    }
  }
}
