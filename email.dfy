/**
 * The email-format check that users.js and auth.js share, a regular expression anchored at
 * both ends, stated here as the structure it accepts: a non-empty local part over a fixed
 * character set, one `@`, then one or more dot-separated labels, where a label is 1 to 63
 * letters, digits or hyphens that starts and ends with a letter or digit.
 */
module EmailFormat {
  import opened Store

  predicate IsAlnum(c: char)
  {
    'a' <= c <= 'z' || 'A' <= c <= 'Z' || '0' <= c <= '9'
  }

  predicate IsLocalChar(c: char)
  {
    IsAlnum(c) || c in ".!#$%&'*+/=?^_`{|}~-"
  }

  predicate IsLabelChar(c: char)
  {
    IsAlnum(c) || c == '-'
  }

  /** One label: a letter or digit, optionally followed by up to 61 label characters and a final letter or digit. */
  predicate IsLabel(s: string)
  {
    1 <= |s| <= 63 && IsAlnum(s[0]) && IsAlnum(s[|s| - 1]) &&
    forall i :: 0 <= i < |s| ==> IsLabelChar(s[i])
  }

  /** The local part: one or more letters, digits or the listed punctuation characters. */
  predicate IsLocalPart(s: string)
  {
    |s| >= 1 && forall i :: 0 <= i < |s| ==> IsLocalChar(s[i])
  }

  function IndexOf(s: string, c: char): Option<nat>
  {
    FirstIndex(s, (x: char) => x == c)
  }

  /**
   * Labels separated by single dots. A label holds no dot, so splitting at the first dot
   * is the only way the expression can read the domain.
   */
  predicate IsDomain(s: string)
    decreases |s|
  {
    match IndexOf(s, '.')
    case None => IsLabel(s)
    case Some(k) => IsLabel(s[..k]) && IsDomain(s[k + 1..])
  }

  /** The whole expression: the local part has no `@`, so the first `@` is the separator. */
  predicate IsEmail(s: string)
  {
    match IndexOf(s, '@')
    case None => false
    case Some(k) => IsLocalPart(s[..k]) && IsDomain(s[k + 1..])
  }

  lemma {:induction false} DomainHasNoAt(s: string)
    requires IsDomain(s)
    ensures '@' !in s
    decreases |s|
  {
    match IndexOf(s, '.')
    case None =>
    case Some(k) =>
      DomainHasNoAt(s[k + 1..]);
      assert s == s[..k] + [s[k]] + s[k + 1..];
  }

  lemma {:induction false} DomainEndsAlnum(s: string)
    requires IsDomain(s)
    ensures |s| >= 1 && IsAlnum(s[0]) && IsAlnum(s[|s| - 1])
    decreases |s|
  {
    match IndexOf(s, '.')
    case None =>
    case Some(k) =>
      DomainEndsAlnum(s[k + 1..]);
  }

  /** Reading a domain: one label, a dot, and a domain again; and building one that way. */
  lemma {:induction false} DomainCons(head: string, rest: string)
    requires '.' !in head
    ensures IsDomain(head + "." + rest) <==> IsLabel(head) && IsDomain(rest)
  {
    var s := head + "." + rest;
    assert s[|head|] == '.';
    assert forall j :: 0 <= j < |head| ==> s[j] == head[j];
    var k := IndexOf(s, '.');
    assert k == Some(|head|);
    assert s[..|head|] == head;
    assert s[|head| + 1..] == rest;
  }

  /** The two halves of an address decide it, whatever `local` contains. */
  lemma {:induction false} EmailSplit(local: string, domain: string)
    ensures IsEmail(local + "@" + domain) <==> IsLocalPart(local) && IsDomain(domain)
  {
    var s := local + "@" + domain;
    assert s[|local|] == '@';
    match IndexOf(local, '@')
    case None =>
      assert forall j :: 0 <= j < |local| ==> s[j] == local[j];
      assert IndexOf(s, '@') == Some(|local|);
      assert s[..|local|] == local;
      assert s[|local| + 1..] == domain;
    case Some(a) =>
      // the separator falls inside `local`, which the local character set excludes
      assert s[a] == '@';
      assert !IsLocalChar('@');
      assert !IsLocalPart(local);
      var k := IndexOf(s, '@');
      assert k.Some? && k.value <= a;
      assert s[k.value + 1..][|local| - k.value - 1] == '@';
      if IsDomain(s[k.value + 1..]) {
        DomainHasNoAt(s[k.value + 1..]);
      }
  }

  /** A valid address has exactly one `@`, a non-empty local part and ends on a letter or digit. */
  lemma EmailShape(s: string)
    requires IsEmail(s)
    ensures exists k :: 1 <= k < |s| - 1 && s[k] == '@' && IsLocalPart(s[..k]) && IsDomain(s[k + 1..])
    ensures forall i, j :: 0 <= i < |s| && 0 <= j < |s| && s[i] == '@' && s[j] == '@' ==> i == j
    ensures IsAlnum(s[|s| - 1])
  {
    var k := IndexOf(s, '@').value;
    DomainHasNoAt(s[k + 1..]);
    DomainEndsAlnum(s[k + 1..]);
    assert forall j :: k < j < |s| ==> s[j] == s[k + 1..][j - k - 1];
    assert s[|s| - 1] == s[k + 1..][|s| - k - 2];
  }
}
