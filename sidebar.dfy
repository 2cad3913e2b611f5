/** The sidebar's profile helpers: the avatar initials and the change-password form. */
module Sidebar {
  import opened Basics

  // ---------------------------------------------------------------------------
  // Initials.

  /** `words.map(w => w[0]).join('')`: the first character of each word; an empty
      word contributes nothing. */
  function FirstChars(words: seq<string>): (r: string)
    ensures |r| <= |words|
  {
    if words == [] then ""
    else (if words[0] == "" then "" else [words[0][0]]) + FirstChars(words[1..])
  }

  /** The characters of `s` that begin a word: not a space, and first or right after a
      space (`atStart` says whether the position before `s` counts as a word break). */
  function WordStarts(s: string, atStart: bool): (r: string)
    ensures |r| <= |s|
    ensures forall k :: 0 <= k < |r| ==> r[k] != ' '
  {
    if s == [] then ""
    else if s[0] == ' ' then WordStarts(s[1..], true)
    else (if atStart then [s[0]] else "") + WordStarts(s[1..], false)
  }

  /** `s.slice(0, n)`. */
  function Prefix(s: string, n: nat): (r: string)
    ensures |r| == if |s| < n then |s| else n
    ensures r == s[..|r|]
  {
    if |s| <= n then s else s[..n]
  }

  /** userInitials: "U" for an empty name; otherwise the first letters of the
      space-separated words, at most two, upper-cased. */
  function Initials(name: string): (r: string)
    ensures name == "" ==> r == "U"
    ensures |r| <= 2
  {
    if name == "" then "U" else Upper(Prefix(FirstChars(Split(name, ' ')), 2))
  }

  /** Splitting at spaces and taking each word's first character picks exactly the
      characters that begin a word; the words after the first pick the word starts
      that follow the first space. */
  lemma {:induction false} FirstCharsOfWords(s: string)
    ensures FirstChars(Split(s, ' ')) == WordStarts(s, true)
    ensures FirstChars(Split(s, ' ')[1..]) == WordStarts(s, false)
  {
    if s != [] {
      FirstCharsOfWords(s[1..]);
      var rest := Split(s[1..], ' ');
      if s[0] == ' ' {
        assert Split(s, ' ') == [""] + rest;
        assert ([""] + rest)[1..] == rest;
      } else {
        var parts := Split(s, ' ');
        assert parts == [[s[0]] + rest[0]] + rest[1..];
        assert parts[1..] == rest[1..];
        assert FirstChars(parts) == [s[0]] + FirstChars(rest[1..]);
      }
    }
  }

  /** The initials of a non-empty name are its first two word-starting characters, upper-cased. */
  lemma InitialsAreWordStarts(name: string)
    requires name != ""
    ensures Initials(name) == Upper(Prefix(WordStarts(name, true), 2))
  {
    FirstCharsOfWords(name);
  }

  /** Example: a name made only of spaces is truthy but has no word, so its initials
      are empty. */
  lemma InitialsOfBlankName()
    ensures Initials("  ") == ""
  {
  }

  // ---------------------------------------------------------------------------
  // The change-password form.

  const AllFieldsRequired := "All fields are required."
  const PasswordsDiffer := "New passwords do not match."
  const PasswordTooShort := "New password must be at least 6 characters."
  const PasswordUpdated := "Password updated!"
  const ChangeFailed := "Failed to change password."
  const ChangeError := "Error changing password."
  const MinPasswordLength := 6

  /** The checks made before any request, in order: a missing field, differing new
      passwords, a new password that is too short. */
  function ValidationError(current: string, new1: string, new2: string): (r: Option<string>)
    ensures r.None? <==> current != "" && new1 != "" && new2 != "" && new1 == new2 && |new1| >= MinPasswordLength
    ensures current == "" || new1 == "" || new2 == "" ==> r == Some(AllFieldsRequired)
    ensures current != "" && new1 != "" && new2 != "" && new1 != new2 ==> r == Some(PasswordsDiffer)
    ensures current != "" && new1 != "" && new1 == new2 && |new1| < MinPasswordLength ==> r == Some(PasswordTooShort)
  {
    if current == "" || new1 == "" || new2 == "" then Some(AllFieldsRequired)
    else if new1 != new2 then Some(PasswordsDiffer)
    else if |new1| < MinPasswordLength then Some(PasswordTooShort)
    else None
  }

  /** How the change-password request ends: accepted, refused with the server's
      message if any, or thrown (network or parse failure). */
  datatype Outcome = Accepted | Refused(message: Option<string>) | Thrown

  /** A change-password request: the current and the new password. */
  datatype PasswordChange = PasswordChange(currentPassword: string, newPassword: string)

  /** The three input fields of the form. */
  datatype Field = Current | New1 | New2

  class PasswordForm {
    var current: string
    var new1: string
    var new2: string
    var pwError: string
    var pwSuccess: string
    var pwLoading: bool
    var changingPw: bool
    /** Every request sent so far, oldest first. */
    var requests: seq<PasswordChange>

    constructor ()
      ensures current == "" && new1 == "" && new2 == ""
      ensures pwError == "" && pwSuccess == "" && !pwLoading && !changingPw && requests == []
    {
      current := "";
      new1 := "";
      new2 := "";
      pwError := "";
      pwSuccess := "";
      pwLoading := false;
      changingPw := false;
      requests := [];
    }

    /** resetPwState: an empty form, no messages, not loading, and the form closed. */
    method Reset()
      modifies this
      ensures current == "" && new1 == "" && new2 == ""
      ensures pwError == "" && pwSuccess == "" && !pwLoading && !changingPw
      ensures requests == old(requests)
    {
      current, new1, new2 := "", "", "";
      pwError := "";
      pwSuccess := "";
      pwLoading := false;
      changingPw := false;
    }

    /** The "change password" link toggles the form. */
    method ToggleForm()
      modifies this
      ensures changingPw == !old(changingPw)
      ensures unchanged(this`current, this`new1, this`new2, this`pwError, this`pwSuccess, this`pwLoading, this`requests)
    {
      changingPw := !changingPw;
    }

    /** Typing into one input replaces that field only. */
    method Enter(field: Field, value: string)
      modifies this
      ensures current == (if field == Current then value else old(current))
      ensures new1 == (if field == New1 then value else old(new1))
      ensures new2 == (if field == New2 then value else old(new2))
      ensures unchanged(this`pwError, this`pwSuccess, this`pwLoading, this`changingPw, this`requests)
    {
      match field
      case Current => current := value;
      case New1 => new1 := value;
      case New2 => new2 := value;
    }

    /** handlePwSubmit: a validation failure shows its message and sends nothing;
        otherwise one request, after which either the success message and a cleared
        form, or an error message and the form as it was. Loading is over either way. */
    method Submit(outcome: Outcome)
      modifies this
      ensures !pwLoading && changingPw == old(changingPw)
      ensures ValidationError(old(current), old(new1), old(new2)).Some? ==>
        && pwError == ValidationError(old(current), old(new1), old(new2)).value && pwSuccess == ""
        && requests == old(requests)
        && current == old(current) && new1 == old(new1) && new2 == old(new2)
      ensures ValidationError(old(current), old(new1), old(new2)).None? ==>
        && requests == old(requests) + [PasswordChange(old(current), old(new1))]
        && (outcome.Accepted? ==>
              pwSuccess == PasswordUpdated && pwError == "" && current == "" && new1 == "" && new2 == "")
        && (outcome.Refused? ==>
              && pwError == OrElse(outcome.message, ChangeFailed) && pwSuccess == ""
              && current == old(current) && new1 == old(new1) && new2 == old(new2))
        && (outcome.Thrown? ==>
              && pwError == ChangeError && pwSuccess == ""
              && current == old(current) && new1 == old(new1) && new2 == old(new2))
    {
      pwError := "";
      pwSuccess := "";
      pwLoading := true;
      var invalid := ValidationError(current, new1, new2);
      if invalid.Some? {
        pwError := invalid.value;
        pwLoading := false;
        return;
      }
      requests := requests + [PasswordChange(current, new1)];
      match outcome
      case Refused(message) =>
        pwError := OrElse(message, ChangeFailed);
        pwLoading := false;
      case Accepted =>
        pwSuccess := PasswordUpdated;
        pwLoading := false;
        current, new1, new2 := "", "", "";
      case Thrown =>
        pwError := ChangeError;
        pwLoading := false;
    }
  }
}
