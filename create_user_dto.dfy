/** The sign-up body (src/users/dto/create-user.dto.ts) and the rules its
    class-validator decorators declare. The e-mail shape check (`IsEmail`) is library
    code and is a parameter. */
module CreateUserDtos {
  import opened Outcomes

  datatype CreateUserDto = CreateUserDto(
    firstName: string,
    lastName: string,
    email: string,
    password: string,
    role: Option<string>,
    image: Option<string>)

  /** The options of `IsStrongPassword`: minimum length and minimum counts of
      lower-case letters, upper-case letters, digits and symbols. */
  datatype PasswordPolicy = PasswordPolicy(
    minLength: nat,
    minLowercase: nat,
    minUppercase: nat,
    minNumbers: nat,
    minSymbols: nat)

  /** The library's default for every option the decorator does not set. */
  const DefaultPasswordPolicy: PasswordPolicy := PasswordPolicy(8, 1, 1, 1, 1)

  /** `{ minLength: 8, minNumbers: 1, minUppercase: 1, minSymbols: 0 }`, with the
      library default for `minLowercase`. */
  const SignUpPasswordPolicy: PasswordPolicy :=
    DefaultPasswordPolicy.(minLength := 8, minNumbers := 1, minUppercase := 1, minSymbols := 0)

  predicate IsLower(c: char) { 'a' <= c <= 'z' }
  predicate IsUpper(c: char) { 'A' <= c <= 'Z' }
  predicate IsDigit(c: char) { '0' <= c <= '9' }
  /** A character above U+FFFF, which UTF-16 stores as a surrogate pair. */
  predicate IsAstral(c: char) { c as int > 0xFFFF }
  predicate IsSymbol(c: char) {
    c in "-#!$@£%^&*()_+|~=`{}[]:\";'<>?,./\\ "
  }

  /** The number of characters of `s` of one class. */
  function Count(s: string, isOfClass: char -> bool): (n: nat)
    ensures n <= |s|
  {
    if s == [] then 0
    else (if isOfClass(s[0]) then 1 else 0) + Count(s[1..], isOfClass)
  }

  lemma {:induction false} CountPositive(s: string, isOfClass: char -> bool)
    ensures Count(s, isOfClass) >= 1 <==> exists i :: 0 <= i < |s| && isOfClass(s[i])
  {
    if s != [] {
      CountPositive(s[1..], isOfClass);
      if exists i :: 0 <= i < |s[1..]| && isOfClass(s[1..][i]) {
        var i :| 0 <= i < |s[1..]| && isOfClass(s[1..][i]);
        assert isOfClass(s[i + 1]);
      }
      if exists i :: 0 <= i < |s| && isOfClass(s[i]) {
        var i :| 0 <= i < |s| && isOfClass(s[i]);
        if i > 0 {
          assert isOfClass(s[1..][i - 1]);
        }
      }
    }
  }

  /** JavaScript's `length`: the number of UTF-16 code units. A character above
      U+FFFF is stored as a surrogate pair and counts twice. */
  function Utf16Length(s: string): (n: nat)
    ensures n == |s| + Count(s, IsAstral)
    ensures |s| <= n <= 2 * |s|
    ensures n == |s| <==> forall i :: 0 <= i < |s| ==> s[i] as int <= 0xFFFF
  {
    if s == [] then 0
    else
      assert forall i :: 1 <= i < |s| ==> s[i] == s[1..][i - 1];
      (if IsAstral(s[0]) then 2 else 1) + Utf16Length(s[1..])
  }

  /** validator.js `isStrongPassword`: the length is the string's `length`, and the
      class counts go character by character. A surrogate half is in no class, so
      counting whole characters gives the same counts. */
  predicate IsStrongPassword(password: string, policy: PasswordPolicy) {
    && Utf16Length(password) >= policy.minLength
    && Count(password, IsLower) >= policy.minLowercase
    && Count(password, IsUpper) >= policy.minUppercase
    && Count(password, IsDigit) >= policy.minNumbers
    && Count(password, IsSymbol) >= policy.minSymbols
  }

  /** The sign-up rule in plain terms: a length of at least eight UTF-16 units with
      a digit, an upper-case and a lower-case letter among the characters; no symbol
      is needed. */
  lemma SignUpPasswordRule(password: string)
    ensures IsStrongPassword(password, SignUpPasswordPolicy) <==>
      && Utf16Length(password) >= 8
      && (exists i :: 0 <= i < |password| && IsDigit(password[i]))
      && (exists i :: 0 <= i < |password| && IsUpper(password[i]))
      && (exists i :: 0 <= i < |password| && IsLower(password[i]))
  {
    CountPositive(password, IsDigit);
    CountPositive(password, IsUpper);
    CountPositive(password, IsLower);
  }

  /** The documented example password is accepted. */
  lemma ExamplePasswordAccepted()
    ensures IsStrongPassword("12345678As", SignUpPasswordPolicy)
  {
    var p := "12345678As";
    assert IsDigit(p[0]) && IsUpper(p[8]) && IsLower(p[9]);
    SignUpPasswordRule(p);
  }

  /** Seven characters, the last above U+FFFF, are eight UTF-16 units and pass the
      length rule. */
  lemma SurrogatePairCountsTwice()
    ensures Utf16Length("Ab1cde\U{1F600}") == 8
    ensures IsStrongPassword("Ab1cde\U{1F600}", SignUpPasswordPolicy)
  {
    var p := "Ab1cde\U{1F600}";
    assert p[6..] == "\U{1F600}" && p[6..][1..] == [];
    assert p[5..][1..] == p[6..] && p[4..][1..] == p[5..] && p[3..][1..] == p[4..];
    assert p[2..][1..] == p[3..] && p[1..][1..] == p[2..];
    assert IsDigit(p[2]) && IsUpper(p[0]) && IsLower(p[1]);
    SignUpPasswordRule(p);
  }

  /** Every decorator of the DTO: non-empty names, a non-empty e-mail of e-mail
      shape, a non-empty strong password, a role that is absent or non-empty; the
      image carries no rule. */
  predicate IsValid(dto: CreateUserDto, isEmail: string -> bool) {
    && dto.firstName != ""
    && dto.lastName != ""
    && dto.email != "" && isEmail(dto.email)
    && dto.password != "" && IsStrongPassword(dto.password, SignUpPasswordPolicy)
    && (dto.role.Some? ==> dto.role.value != "")
  }
}
