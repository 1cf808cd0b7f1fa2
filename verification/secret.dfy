/**
 * Normalisation of the SECRET argument, as `getPositionalArgs` does it
 * before the secret is decoded: upper-case it, delete every space, refuse
 * an empty result (the program prints its usage and exits), and in base32
 * mode pad it with '=' up to 32 characters.
 */
module Secret {

  datatype Option<T> = None | Some(value: T)

  predicate IsLower(c: char) {
    'a' <= c <= 'z'
  }

  /** The upper-case form of one character; only the ASCII letters a-z change. */
  function UpperChar(c: char): (u: char)
    ensures !IsLower(u)
    ensures IsLower(c) ==> u as int == c as int - 32
    ensures !IsLower(c) ==> u == c
  {
    if IsLower(c) then (c as int - 32) as char else c
  }

  /** `strings.ToUpper` on ASCII text. */
  function ToUpper(s: string): (u: string)
    ensures |u| == |s|
    ensures forall i :: 0 <= i < |s| ==> u[i] == UpperChar(s[i])
  {
    if s == [] then [] else [UpperChar(s[0])] + ToUpper(s[1..])
  }

  /** Upper-casing twice is upper-casing once. */
  lemma ToUpperIdempotent(s: string)
    ensures ToUpper(ToUpper(s)) == ToUpper(s)
  {
    var u := ToUpper(s);
    assert forall i :: 0 <= i < |u| ==> UpperChar(u[i]) == u[i];
  }

  /** `strings.Replace(s, " ", "", -1)`: every space deleted, everything else kept in order. */
  function RemoveSpaces(s: string): (t: string)
    ensures |t| <= |s|
    ensures ' ' !in t
    ensures forall c :: c != ' ' ==> multiset(t)[c] == multiset(s)[c]
  {
    if s == [] then []
    else
      assert s == [s[0]] + s[1..];
      if s[0] == ' ' then RemoveSpaces(s[1..]) else [s[0]] + RemoveSpaces(s[1..])
  }

  /** Deleting spaces distributes over concatenation. */
  lemma {:induction false} RemoveSpacesAppend(a: string, b: string)
    ensures RemoveSpaces(a + b) == RemoveSpaces(a) + RemoveSpaces(b)
  {
    if a == [] {
      assert a + b == b;
    } else {
      assert (a + b)[0] == a[0] && (a + b)[1..] == a[1..] + b;
      RemoveSpacesAppend(a[1..], b);
    }
  }

  /** A string without spaces is left as it is. */
  lemma {:induction false} RemoveSpacesNoSpaces(s: string)
    requires ' ' !in s
    ensures RemoveSpaces(s) == s
  {
    if s != [] {
      assert s[0] in s;
      assert forall c :: c in s[1..] ==> c in s;
      RemoveSpacesNoSpaces(s[1..]);
    }
  }

  /** Nothing is left exactly when the argument is all spaces (or empty). */
  lemma {:induction false} RemoveSpacesEmpty(s: string)
    ensures RemoveSpaces(s) == [] <==> forall i :: 0 <= i < |s| ==> s[i] == ' '
  {
    if s != [] {
      RemoveSpacesEmpty(s[1..]);
      assert forall i :: 1 <= i < |s| ==> s[i] == s[1..][i - 1];
    }
  }

  /** Upper-casing and deleting spaces commute: a space is neither a letter nor changed by upper-casing. */
  lemma {:induction false} RemoveSpacesToUpper(s: string)
    ensures ToUpper(RemoveSpaces(s)) == RemoveSpaces(ToUpper(s))
  {
    if s != [] {
      RemoveSpacesToUpper(s[1..]);
      assert ToUpper(s)[1..] == ToUpper(s[1..]);
    }
  }

  /** `k` copies of '='. */
  function Equals(k: nat): (s: string)
    ensures |s| == k && forall i :: 0 <= i < k ==> s[i] == '='
  {
    if k == 0 then [] else Equals(k - 1) + "="
  }

  /** A base32 secret padded with '=' up to 32 characters; a longer one is left alone. */
  function Padded(s: string): string {
    if |s| < 32 then s + Equals(32 - |s|) else s
  }

  /** Padding keeps the secret as a prefix, adds only '=', and reaches at least 32 characters. */
  lemma PaddedSpec(s: string)
    ensures |Padded(s)| == if |s| < 32 then 32 else |s|
    ensures Padded(s)[..|s|] == s
    ensures forall i :: |s| <= i < |Padded(s)| ==> Padded(s)[i] == '='
  {
  }

  /** A padded secret needs no more padding. */
  lemma PaddedIdempotent(s: string)
    ensures Padded(Padded(s)) == Padded(s)
  {
  }

  /** The `for len(secret) < 32 { secret = secret + "=" }` loop of base32 mode. */
  method PadBase32(s: string) returns (t: string)
    ensures t == Padded(s)
    ensures |t| >= 32 && t[..|s|] == s
  {
    t := s;
    while |t| < 32
      invariant |s| <= |t| && t == s + Equals(|t| - |s|)
      invariant |s| < 32 ==> |t| <= 32
      invariant |s| >= 32 ==> t == s
      decreases 32 - |t|
    {
      t := t + "=";
    }
  }

  /**
   * The secret `getPositionalArgs` keeps: `None` where it calls `usage()`
   * (the argument is empty or only spaces), otherwise the upper-cased,
   * space-free secret, padded in base32 mode.
   */
  function Normalised(arg: string, b32: bool): Option<string> {
    var s := RemoveSpaces(ToUpper(arg));
    if s == [] then None
    else if b32 then Some(Padded(s))
    else Some(s)
  }

  /** The secret handling of `getPositionalArgs`. */
  method NormaliseSecret(arg: string, b32: bool) returns (r: Option<string>)
    ensures r == Normalised(arg, b32)
    ensures r.None? <==> forall i :: 0 <= i < |arg| ==> arg[i] == ' '
  {
    var s := ToUpper(arg);
    s := RemoveSpaces(s);
    RemoveSpacesToUpper(arg);
    RemoveSpacesEmpty(arg);
    if s == [] {
      return None;
    }
    if b32 {
      s := PadBase32(s);
    }
    r := Some(s);
  }

  /** A kept secret is non-empty, space-free, has no lower-case letter, and is at least 32 long in base32 mode. */
  lemma NormalisedShape(arg: string, b32: bool)
    requires Normalised(arg, b32).Some?
    ensures var s := Normalised(arg, b32).value;
            s != [] && ' ' !in s && NoLower(s) && (b32 ==> |s| >= 32)
  {
    RemoveSpacesNoLower(ToUpper(arg));
  }

  predicate NoLower(s: string) {
    forall i :: 0 <= i < |s| ==> !IsLower(s[i])
  }

  /** Deleting spaces brings in no lower-case letter. */
  lemma {:induction false} RemoveSpacesNoLower(s: string)
    requires NoLower(s)
    ensures NoLower(RemoveSpaces(s))
  {
    if s != [] {
      assert NoLower(s[1..]) by {
        assert forall i :: 0 <= i < |s| - 1 ==> s[1..][i] == s[i + 1];
      }
      RemoveSpacesNoLower(s[1..]);
    }
  }

  /** Normalising a normalised secret again gives it back unchanged. */
  lemma NormalisedIdempotent(arg: string, b32: bool)
    requires Normalised(arg, b32).Some?
    ensures Normalised(Normalised(arg, b32).value, b32) == Normalised(arg, b32)
  {
    var s := RemoveSpaces(ToUpper(arg));
    assert Settled(s) by {
      RemoveSpacesToUpper(arg);
      ToUpperIdempotent(RemoveSpaces(arg));
    }
    var v := Normalised(arg, b32).value;
    assert Settled(v) by {
      if b32 && |s| < 32 {
        SettledAppend(s, Equals(32 - |s|));
      }
    }
    RemoveSpacesNoSpaces(v);
    assert RemoveSpaces(ToUpper(v)) == v;
  }

  /** A string upper-casing and space deletion leave alone. */
  predicate Settled(s: string) {
    ToUpper(s) == s && ' ' !in s
  }

  /** Padding with '=' keeps a settled secret settled. */
  lemma SettledAppend(s: string, e: string)
    requires Settled(s) && forall i :: 0 <= i < |e| ==> e[i] == '='
    ensures Settled(s + e)
  {
    ToUpperAppend(s, e);
    assert ToUpper(e) == e;
    assert ' ' !in e;
    assert forall c :: c in s + e ==> c in s || c in e;
  }

  lemma ToUpperAppend(a: string, b: string)
    ensures ToUpper(a + b) == ToUpper(a) + ToUpper(b)
  {
  }
}
