/** The user record of user.py: identity plus the preference snapshot the core reads. */
module Users {

  /**
   * One registered user. Rents are whole amounts; `rent` is the closed range (low, high). Every
   * preference field holds a value: the optional `None` preferences are not part of this model.
   */
  datatype User = User(
    name: string,
    username: string,
    id: int,
    age: int,
    gender: string,
    genderPref: bool,
    smoke: bool,
    rent: (int, int),
    pets: bool,
    contact: string,
    location: (string, string),
    noise: int,
    guests: bool,
    cleanliness: int,
    numRoommates: int)

  /** `str.lower()` on one character, restricted to ASCII letters. */
  function LowerChar(c: char): char {
    if 'A' <= c <= 'Z' then (c as int - 'A' as int + 'a' as int) as char else c
  }

  /** `str.lower()`, restricted to ASCII letters. */
  function Lower(s: string): (r: string)
    ensures |r| == |s|
    ensures forall i :: 0 <= i < |s| ==> r[i] == LowerChar(s[i])
  {
    seq(|s|, i requires 0 <= i < |s| => LowerChar(s[i]))
  }

}
