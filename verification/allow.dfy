/** Who may talk to the bot. The webhook handler and the sender apply the same test to the same list. */
module Allow {
  import opened Wrappers
  import opened Text
  import opened Decimal

  datatype User = User(id: int, username: string)

  function TrimAt(s: string): string {
    if s != "" && s[0] == '@' then s[1..] else s
  }

  predicate IsAllowedUser(allow: seq<string>, user: Option<User>) {
    user.Some? &&
    exists i | 0 <= i < |allow| ::
      var val := ToLower(TrimAt(TrimSpace(allow[i])));
      val != "" && (val == FormatInt(user.value.id) || val == ToLower(TrimAt(user.value.username)))
  }

  /** a and b are the same but for the case of ASCII letters. */
  ghost predicate SameButForCase(a: string, b: string) {
    exists low :: PartlyLowered(a, low) && PartlyLowered(b, low)
  }

  lemma CaseFolding(a: string, b: string)
    requires IsAscii(a) && IsAscii(b)
    ensures ToLower(a) == ToLower(b) <==> SameButForCase(a, b)
  {
    LoweredAscii(a, ToLower(a));
    LoweredAscii(b, ToLower(b));
    if low :| PartlyLowered(a, low) && PartlyLowered(b, low) {
      LoweringIgnoresCapitals(a, low);
      LoweringIgnoresCapitals(b, low);
    }
  }

  /** name is written as text: itself, or after an "@". */
  predicate WrittenAs(name: string, text: string) {
    text == "@" + name || (text == name && (name == "" || name[0] != '@'))
  }

  lemma WithoutAt(text: string, name: string)
    ensures WrittenAs(name, text) <==> name == TrimAt(text)
  {
    if text != "" && text[0] == '@' { assert text == "@" + text[1..]; }
  }

  /** The entry, white space around it and one "@" aside, is the user's number, or, but for case, the user's name. */
  ghost predicate Admits(entry: string, user: User) {
    exists name, username ::
      && WrittenAs(name, TrimSpace(entry)) && WrittenAs(username, user.username)
      && name != "" && (name == FormatInt(user.id) || SameButForCase(name, username))
  }

  lemma NumbersHaveNoCase(s: string, n: int)
    requires IsAscii(s)
    ensures ToLower(s) == FormatInt(n) <==> s == FormatInt(n)
  {
    var number := FormatInt(n);
    assert IsAscii(number) && HasNoCapital(number);
    LoweredAscii(s, number);
    forall i | 0 <= i < |number| ensures !('a' <= number[i] <= 'z') {}
    if PartlyLowered(s, number) {
      forall i | 0 <= i < |s| ensures s[i] == number[i] {
        assert LowersTo(s[i], number[i]);
      }
    }
  }

  lemma AsciiParts(text: string)
    requires IsAscii(text)
    ensures IsAscii(TrimSpace(text)) && IsAscii(TrimAt(text))
  {
    var lo, hi := AsciiTrim(text);
  }

  /** On ASCII lists and names: a user is allowed exactly when some entry admits the user; a missing user never is. */
  lemma AllowedExactly(allow: seq<string>, user: Option<User>)
    requires forall i | 0 <= i < |allow| :: IsAscii(allow[i])
    requires user.Some? ==> IsAscii(user.value.username)
    ensures IsAllowedUser(allow, user) <==> user.Some? && exists i :: 0 <= i < |allow| && Admits(allow[i], user.value)
  {
    hide ToLower, TrimSpace, FormatInt, IsAscii, TrimAt, Admits;
    if user.Some? {
      forall i | 0 <= i < |allow|
        ensures Admits(allow[i], user.value) <==>
                var val := ToLower(TrimAt(TrimSpace(allow[i])));
                val != "" && (val == FormatInt(user.value.id) || val == ToLower(TrimAt(user.value.username)))
      {
        AdmitsExactly(allow[i], user.value);
      }
    }
  }

  lemma AdmitsExactly(entry: string, user: User)
    requires IsAscii(entry) && IsAscii(user.username)
    ensures Admits(entry, user) <==>
            var val := ToLower(TrimAt(TrimSpace(entry)));
            val != "" && (val == FormatInt(user.id) || val == ToLower(TrimAt(user.username)))
  {
    var name, username := TrimAt(TrimSpace(entry)), TrimAt(user.username);
    AsciiParts(entry);
    AsciiParts(TrimSpace(entry));
    AsciiParts(user.username);
    NumbersHaveNoCase(name, user.id);
    CaseFolding(name, username);
    assert |ToLower(name)| == |name|;
    hide ToLower, TrimSpace, FormatInt, IsAscii, TrimAt, SameButForCase, WrittenAs;
    forall n ensures WrittenAs(n, TrimSpace(entry)) <==> n == name { WithoutAt(TrimSpace(entry), n); }
    forall n ensures WrittenAs(n, user.username) <==> n == username { WithoutAt(user.username, n); }
  }
}
