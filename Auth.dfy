/** The `Authorization` value of the Basic scheme (section 2 of RFC 7617)
    as `generate_basic_auth` builds it: the user-id and the password joined
    by a colon, encoded as UTF-8, then as base 64, behind the word `Basic`
    and one space. */
module Auth {
  import opened Wrappers
  import Utf8
  import Base64

  type CodePoint = Utf8.CodePoint

  const COLON: CodePoint := 0x3A

  /** The scheme name and the space that separates it from the credentials. */
  const BASIC_PREFIX: string := "Basic "

  /** The string `f"{login}:{senha}"`. */
  function Credentials(login: seq<CodePoint>, senha: seq<CodePoint>): (s: seq<CodePoint>)
    ensures |s| == |login| + 1 + |senha|
    ensures s[..|login|] == login && s[|login|] == COLON && s[|login| + 1..] == senha
  {
    login + [COLON] + senha
  }

  predicate NoSurrogate(s: seq<CodePoint>) {
    forall i :: 0 <= i < |s| ==> !Utf8.IsSurrogate(s[i])
  }

  /** `generate_basic_auth(login, senha)`. Python strings may hold lone
      surrogates, which `encode('utf-8')` refuses with an exception; that
      is the `Failure` case. On success the value is the prefix followed
      by text that decodes, as base 64 and then as UTF-8, back to exactly
      the login, one colon and the password. */
  function GenerateBasicAuth(login: seq<CodePoint>, senha: seq<CodePoint>): (r: Result<string, Utf8.EncodeError>)
    ensures r.Success? <==> NoSurrogate(login) && NoSurrogate(senha)
    ensures r.Failure? ==> r.error.position < |login| + 1 + |senha|
    ensures r.Success? ==>
      && |r.value| >= |BASIC_PREFIX|
      && r.value[..|BASIC_PREFIX|] == BASIC_PREFIX
      && Base64.Decode(r.value[|BASIC_PREFIX|..]).Some?
      && Utf8.Decode(Base64.Decode(r.value[|BASIC_PREFIX|..]).value) == Some(login + [COLON] + senha)
  {
    var s := Credentials(login, senha);
    assert forall i :: 0 <= i < |login| ==> s[i] == login[i];
    assert forall i :: 0 <= i < |senha| ==> s[|login| + 1 + i] == senha[i];
    assert s[|login|] == COLON;
    match Utf8.Encode(s)
    case Failure(e) => Failure(e)
    case Success(octets) =>
      var text := Base64.Encode(octets);
      Base64.DecodeEncode(octets);
      Utf8.DecodeEncode(s);
      assert (BASIC_PREFIX + text)[|BASIC_PREFIX|..] == text;
      Success(BASIC_PREFIX + text)
  }

  /** The octets that get base 64 encoded: the UTF-8 form of the
      credentials. */
  function Octets(login: seq<CodePoint>, senha: seq<CodePoint>): seq<Byte>
    requires NoSurrogate(login) && NoSurrogate(senha)
  {
    GenerateBasicAuthSucceeds(login, senha);
    Utf8.Encode(Credentials(login, senha)).value
  }

  lemma GenerateBasicAuthSucceeds(login: seq<CodePoint>, senha: seq<CodePoint>)
    requires NoSurrogate(login) && NoSurrogate(senha)
    ensures Utf8.Encode(Credentials(login, senha)).Success?
    ensures GenerateBasicAuth(login, senha).Success?
  {
    var s := Credentials(login, senha);
    assert forall i :: 0 <= i < |s| ==> !Utf8.IsSurrogate(s[i]) by {
      forall i | 0 <= i < |s|
        ensures !Utf8.IsSurrogate(s[i])
      {
        if i < |login| {
          assert s[i] == login[i];
        } else if i > |login| {
          assert s[i] == senha[i - |login| - 1];
        }
      }
    }
  }

  /** The header is the prefix followed by the base 64 text of the octets,
      so its length is six plus four for every started group of three
      octets, and the encoded part is a multiple of four long. */
  lemma HeaderLength(login: seq<CodePoint>, senha: seq<CodePoint>)
    requires NoSurrogate(login) && NoSurrogate(senha)
    ensures var n := |Octets(login, senha)|;
      var h := GenerateBasicAuth(login, senha).value;
      && |h| == |BASIC_PREFIX| + 4 * ((n + 2) / 3)
      && (|h| - |BASIC_PREFIX|) % 4 == 0
  {
    var octets := Octets(login, senha);
    HeaderValue(login, senha);
    Base64.EncodeLength(octets);
    Base64.EncodeLengthMultiple(octets);
  }

  lemma HeaderValue(login: seq<CodePoint>, senha: seq<CodePoint>)
    requires NoSurrogate(login) && NoSurrogate(senha)
    ensures GenerateBasicAuth(login, senha).value == BASIC_PREFIX + Base64.Encode(Octets(login, senha))
  {
  }

  /** For credentials made of ASCII characters the octet count is the
      character count: login, colon, password. */
  lemma AsciiOctets(login: seq<CodePoint>, senha: seq<CodePoint>)
    requires forall i :: 0 <= i < |login| ==> login[i] < 0x80
    requires forall i :: 0 <= i < |senha| ==> senha[i] < 0x80
    ensures NoSurrogate(login) && NoSurrogate(senha)
    ensures Octets(login, senha) == Credentials(login, senha)
    ensures |Octets(login, senha)| == |login| + 1 + |senha|
  {
    var s := Credentials(login, senha);
    assert forall i :: 0 <= i < |s| ==> s[i] < 0x80 by {
      forall i | 0 <= i < |s|
        ensures s[i] < 0x80
      {
        if i < |login| {
          assert s[i] == login[i];
        } else if i > |login| {
          assert s[i] == senha[i - |login| - 1];
        }
      }
    }
    Utf8.EncodeAscii(s);
  }

  /** After the prefix come only alphabet characters and then the padding:
      no `=` for a whole number of groups, two for one octet left over,
      one for two, so never more than two. */
  lemma HeaderAlphabet(login: seq<CodePoint>, senha: seq<CodePoint>)
    requires NoSurrogate(login) && NoSurrogate(senha)
    ensures var n := |Octets(login, senha)|;
      var h := GenerateBasicAuth(login, senha).value;
      var pad := if n % 3 == 0 then 0 else if n % 3 == 1 then 2 else 1;
      && |BASIC_PREFIX| + pad <= |h|
      && (forall i :: |BASIC_PREFIX| <= i < |h| - pad ==> Base64.IsAlphabetChar(h[i]))
      && (forall i :: |h| - pad <= i < |h| ==> h[i] == Base64.PAD)
  {
    HeaderValue(login, senha);
    PrefixedShape(Octets(login, senha));
  }

  lemma PrefixedShape(octets: seq<Byte>)
    ensures var n := |octets|;
      var h := BASIC_PREFIX + Base64.Encode(octets);
      var pad := if n % 3 == 0 then 0 else if n % 3 == 1 then 2 else 1;
      && |BASIC_PREFIX| + pad <= |h|
      && (forall i :: |BASIC_PREFIX| <= i < |h| - pad ==> Base64.IsAlphabetChar(h[i]))
      && (forall i :: |h| - pad <= i < |h| ==> h[i] == Base64.PAD)
  {
    var text := Base64.Encode(octets);
    var h := BASIC_PREFIX + text;
    Base64.EncodeShape(octets);
    forall i | |BASIC_PREFIX| <= i < |h|
      ensures h[i] == text[i - |BASIC_PREFIX|]
    {
    }
  }

  /** An empty login and an empty password still yield a header: the
      encoding of the lone colon. */
  lemma EmptyCredentials()
    ensures GenerateBasicAuth([], []) == Success("Basic Og==")
  {
    assert Credentials([], []) == [COLON];
    Utf8.EncodeAscii([COLON]);
    assert Utf8.Encode(Credentials([], [])) == Success([0x3A]);
    assert GenerateBasicAuth([], []) == Success(BASIC_PREFIX + Base64.Encode([0x3A]));
    assert Base64.Char(14) == 'O';
    assert Base64.Char(32) == 'g';
    assert Base64.Encode([0x3A]) == "Og==";
    assert BASIC_PREFIX + "Og==" == "Basic Og==";
  }

  /** The first colon of a credentials string and what lies on either
      side of it: how a server reading section 2 of RFC 7617 splits them. */
  function SplitAtColon(s: seq<CodePoint>): (r: Option<(seq<CodePoint>, seq<CodePoint>)>)
    ensures r.Some? ==> r.value.0 + [COLON] + r.value.1 == s && COLON !in r.value.0
    ensures r.None? <==> COLON !in s
  {
    if s == [] then None
    else if s[0] == COLON then Some(([], s[1..]))
    else
      match SplitAtColon(s[1..])
      case None => None
      case Some((user, password)) =>
        assert [s[0]] + (user + [COLON] + password) == s;
        Some(([s[0]] + user, password))
  }

  /** A login without a colon comes back intact, and so does the password,
      whatever it holds. */
  lemma {:induction false} SplitCredentials(login: seq<CodePoint>, senha: seq<CodePoint>)
    requires COLON !in login
    ensures SplitAtColon(Credentials(login, senha)) == Some((login, senha))
  {
    var s := Credentials(login, senha);
    if login == [] {
      assert s == [COLON] + senha;
      assert s[1..] == senha;
    } else {
      SplitCredentials(login[1..], senha);
      assert s[1..] == Credentials(login[1..], senha);
      assert [login[0]] + login[1..] == login;
    }
  }

  /** A login that contains a colon is not recoverable: `a:b` with password
      `c` and `a` with password `b:c` give the same header, which a server
      splits as the second pair. */
  lemma ColonInLogin()
    ensures var (a, b, c) := (0x61, 0x62, 0x63);
      && GenerateBasicAuth([a, COLON, b], [c]) == GenerateBasicAuth([a], [b, COLON, c])
      && SplitAtColon(Credentials([a, COLON, b], [c])) == Some(([a], [b, COLON, c]))
  {
    var (a, b, c) := (0x61, 0x62, 0x63);
    assert Credentials([a, COLON, b], [c]) == Credentials([a], [b, COLON, c]);
    SplitCredentials([a], [b, COLON, c]);
  }
}
