/** `EmailValidator` of the bulk sender (src/services/bulkEmailService/mailValidator.ts): the
    address check shared by every validator, the disposable-domain check, and the bulk
    partition into valid, invalid and duplicate addresses. */
module MailValidator {
  import opened Results
  import opened JsText

  /** `[^\s@]` holds for every character of `e[a..b]`. */
  predicate Plain(e: string, a: nat, b: nat)
    requires a <= b <= |e|
  {
    forall k :: a <= k < b ==> !IsSpace(e[k]) && e[k] != '@'
  }

  /** `/^[^\s@]+@[^\s@]+\.[^\s@]+$/.test(e)`: some `@` at `i` and `.` at `j` split the text
      into three non-empty runs of `[^\s@]`. */
  predicate IsValidEmail(e: string) {
    exists i, j :: 0 < i < |e| && i + 1 < j < |e| - 1 && e[i] == '@' && e[j] == '.'
      && Plain(e, 0, i) && Plain(e, i + 1, j) && Plain(e, j + 1, |e|)
  }

  /** The address check in words: no whitespace, exactly one `@`, a non-empty local part,
      and a `.` in the domain with at least one character on each side. */
  predicate Shaped(e: string) {
    && (forall k :: 0 <= k < |e| ==> !IsSpace(e[k]))
    && exists i :: 0 < i < |e| && e[i] == '@'
         && (forall k :: 0 <= k < |e| && e[k] == '@' ==> k == i)
         && exists j :: i + 1 < j < |e| - 1 && e[j] == '.'
  }

  /** The pattern accepts exactly the addresses described in words. */
  lemma IsValidEmailIff(e: string)
    ensures IsValidEmail(e) <==> Shaped(e)
  {
    if IsValidEmail(e) {
      ValidIsShaped(e);
    }
    if Shaped(e) {
      ShapedIsValid(e);
    }
  }

  lemma ValidIsShaped(e: string)
    requires IsValidEmail(e)
    ensures Shaped(e)
  {
    var i, j :| 0 < i < |e| && i + 1 < j < |e| - 1 && e[i] == '@' && e[j] == '.'
      && Plain(e, 0, i) && Plain(e, i + 1, j) && Plain(e, j + 1, |e|);
    forall k | 0 <= k < |e|
      ensures !IsSpace(e[k]) && (e[k] == '@' ==> k == i)
    {
    }
  }

  lemma ShapedIsValid(e: string)
    requires Shaped(e)
    ensures IsValidEmail(e)
  {
    var i :| 0 < i < |e| && e[i] == '@'
      && (forall k :: 0 <= k < |e| && e[k] == '@' ==> k == i)
      && exists j :: i + 1 < j < |e| - 1 && e[j] == '.';
    var j :| i + 1 < j < |e| - 1 && e[j] == '.';
    assert Plain(e, 0, i) && Plain(e, i + 1, j) && Plain(e, j + 1, |e|);
  }

  /** The domains `isDisposableEmail` knows. */
  const DisposableDomains: seq<string> := ["tempmail.com", "10minutemail.com", "guerrillamail.com", "mailinator.com"]

  /** `e.split('@')[1]`: the text between the first `@` and the next one, or none without `@`. */
  function DomainField(e: string): Option<string> {
    var local := TakeUntil(e, '@');
    if |local| == |e| then None else Some(TakeUntil(e[|local| + 1..], '@'))
  }

  /** `isDisposableEmail(e)`: the lower-cased second `@`-field is a listed domain. */
  predicate IsDisposableEmail(e: string) {
    match DomainField(e)
    case None => false
    case Some(domain) => ToLower(domain) in DisposableDomains
  }

  /** The second field starts after the first `@`; there is none without `@`. */
  lemma DomainFieldAtFirstAt(e: string)
    ensures '@' !in e ==> DomainField(e) == None
    ensures forall i :: 0 <= i < |e| && e[i] == '@' && '@' !in e[..i] ==>
      DomainField(e) == Some(TakeUntil(e[i + 1..], '@'))
  {
    var local := TakeUntil(e, '@');
    forall i | 0 <= i < |e| && e[i] == '@' && '@' !in e[..i]
      ensures |local| == i
    {
    }
  }

  /** An address is disposable exactly when the text after its first `@`, up to any further
      `@`, lower-cased, is a listed domain; without `@` it never is. */
  lemma IsDisposableIff(e: string)
    ensures '@' !in e ==> !IsDisposableEmail(e)
    ensures forall i :: 0 <= i < |e| && e[i] == '@' && '@' !in e[..i] ==>
      (IsDisposableEmail(e) <==> ToLower(TakeUntil(e[i + 1..], '@')) in DisposableDomains)
  {
    DomainFieldAtFirstAt(e);
  }

  /** For a valid address the second field is the whole domain. */
  lemma DisposableOfValid(e: string, i: nat)
    requires IsValidEmail(e) && i < |e| && e[i] == '@'
    ensures IsDisposableEmail(e) <==> ToLower(e[i + 1..]) in DisposableDomains
  {
    IsValidEmailIff(e);
    assert '@' !in e[..i] by {
      forall k | 0 <= k < i
        ensures e[..i][k] != '@'
      {
        assert e[..i][k] == e[k];
      }
    }
    var d := e[i + 1..];
    assert '@' !in d by {
      forall k | 0 <= k < |d|
        ensures d[k] != '@'
      {
        assert d[k] == e[i + 1 + k];
      }
    }
    TakeUntilAll(d, '@');
    IsDisposableIff(e);
  }

  lemma TakeUntilAll(s: string, c: char)
    requires c !in s
    ensures TakeUntil(s, c) == s
  {
  }

  /** `email.trim().toLowerCase()`: the key has no upper-case letter, and it is the input
      with surrounding whitespace gone and letters lower-cased in place. */
  function Normalize(e: string): (key: string)
    ensures forall m :: 0 <= m < |key| ==> !('A' <= key[m] <= 'Z')
    ensures |key| == |Trim(e)| <= |e|
  {
    TrimIsSlice(e);
    ToLower(Trim(e))
  }

  /** The normalised form of every input. */
  function NormalizeAll(emails: seq<string>): (keys: seq<string>)
    ensures |keys| == |emails|
    ensures forall k :: 0 <= k < |emails| ==> keys[k] == Normalize(emails[k])
  {
    seq(|emails|, k requires 0 <= k < |emails| => Normalize(emails[k]))
  }

  /** The three lists `validateBulk` returns. */
  datatype BulkResult = BulkResult(valid: seq<string>, invalid: seq<string>, duplicates: seq<string>)

  /** One input with normalised form `key` placed into the lists: invalid when the key
      fails the check, a duplicate when it is already valid, otherwise a new valid key. */
  function Place(r: BulkResult, email: string, key: string): BulkResult {
    if !IsValidEmail(key) then r.(invalid := r.invalid + [email])
    else if key in r.valid then r.(duplicates := r.duplicates + [email])
    else r.(valid := r.valid + [key])
  }

  /** The lists after the first `n` inputs, `keys` holding their normalised forms. */
  function Classify(emails: seq<string>, keys: seq<string>, n: nat): BulkResult
    requires |keys| == |emails| && n <= |emails|
  {
    if n == 0 then BulkResult([], [], [])
    else Place(Classify(emails, keys, n - 1), emails[n - 1], keys[n - 1])
  }

  /** One more input: the three cases of the loop body. */
  lemma ClassifyStep(emails: seq<string>, keys: seq<string>, n: nat)
    requires |keys| == |emails| && 0 < n <= |emails|
    ensures var r, w, t := Classify(emails, keys, n), Classify(emails, keys, n - 1), keys[n - 1];
      && (!IsValidEmail(t) ==> r == BulkResult(w.valid, w.invalid + [emails[n - 1]], w.duplicates))
      && (IsValidEmail(t) && t in w.valid ==> r == BulkResult(w.valid, w.invalid, w.duplicates + [emails[n - 1]]))
      && (IsValidEmail(t) && t !in w.valid ==> r == BulkResult(w.valid + [t], w.invalid, w.duplicates))
  {
  }

  /** `validateBulk(emails)`: the loop over the inputs with the `seen` set. */
  method ValidateBulk(emails: seq<string>) returns (r: BulkResult)
    ensures r == Classify(emails, NormalizeAll(emails), |emails|)
  {
    ghost var keys := NormalizeAll(emails);
    var valid: seq<string> := [];
    var invalid: seq<string> := [];
    var seen: set<string> := {};
    var duplicates: seq<string> := [];
    for n := 0 to |emails|
      invariant BulkResult(valid, invalid, duplicates) == Classify(emails, keys, n)
      invariant seen == Members(valid)
    {
      ghost var before := BulkResult(valid, invalid, duplicates);
      var email := emails[n];
      var trimmedEmail := Normalize(email);
      if !IsValidEmail(trimmedEmail) {
        invalid := invalid + [email];
      } else if trimmedEmail in seen {
        duplicates := duplicates + [email];
      } else {
        MembersAppend(valid, trimmedEmail);
        seen := seen + {trimmedEmail};
        valid := valid + [trimmedEmail];
      }
      assert BulkResult(valid, invalid, duplicates) == Place(before, email, trimmedEmail);
      ClassifyNext(emails, keys, n);
    }
    return BulkResult(valid, invalid, duplicates);
  }

  /** The entries of a list, as a set: what the `seen` set holds. */
  function Members(v: seq<string>): (m: set<string>)
    ensures forall s :: s in m <==> s in v
  {
    if v == [] then {} else Members(v[..|v| - 1]) + {v[|v| - 1]}
  }

  lemma MembersAppend(v: seq<string>, t: string)
    ensures Members(v + [t]) == Members(v) + {t}
  {
    assert (v + [t])[..|v|] == v;
  }

  lemma ClassifyNext(emails: seq<string>, keys: seq<string>, n: nat)
    requires |keys| == |emails| && n < |emails| && keys == NormalizeAll(emails)
    ensures Classify(emails, keys, n + 1) == Place(Classify(emails, keys, n), emails[n], Normalize(emails[n]))
  {
  }

  /** Every input lands in exactly one list. */
  lemma {:induction false} ClassifySizes(emails: seq<string>, keys: seq<string>, n: nat)
    requires |keys| == |emails| && n <= |emails|
    ensures var r := Classify(emails, keys, n); |r.valid| + |r.invalid| + |r.duplicates| == n
  {
    if n > 0 {
      ClassifySizes(emails, keys, n - 1);
    }
  }

  /** The valid list holds exactly the valid keys seen so far. */
  lemma {:induction false} ValidAreSeen(emails: seq<string>, keys: seq<string>, n: nat)
    requires |keys| == |emails| && n <= |emails|
    ensures forall s :: s in Classify(emails, keys, n).valid <==>
      exists k :: 0 <= k < n && IsValidEmail(keys[k]) && keys[k] == s
  {
    if n > 0 {
      ValidAreSeen(emails, keys, n - 1);
    }
  }

  /** The valid list has no repeated entry. */
  lemma {:induction false} ValidDistinct(emails: seq<string>, keys: seq<string>, n: nat)
    requires |keys| == |emails| && n <= |emails|
    ensures var v := Classify(emails, keys, n).valid;
      forall a, b :: 0 <= a < b < |v| ==> v[a] != v[b]
  {
    if n > 0 {
      ValidDistinct(emails, keys, n - 1);
      ClassifyStep(emails, keys, n);
      var v := Classify(emails, keys, n).valid;
      var w := Classify(emails, keys, n - 1).valid;
      assert v == w || (v == w + [keys[n - 1]] && keys[n - 1] !in w);
      forall a, b | 0 <= a < b < |v|
        ensures v[a] != v[b]
      {
        if b == |w| {
          assert v[a] == w[a] && v[b] == keys[n - 1];
        }
      }
    }
  }

  /** Every valid entry is the key of an input and passes the check. */
  lemma {:induction false} ValidAreValidKeys(emails: seq<string>, keys: seq<string>, n: nat)
    requires |keys| == |emails| && n <= |emails|
    ensures var v := Classify(emails, keys, n).valid;
      forall k :: 0 <= k < |v| ==> IsValidEmail(v[k]) && exists m :: 0 <= m < n && v[k] == keys[m]
  {
    if n > 0 {
      ValidAreValidKeys(emails, keys, n - 1);
      ClassifyStep(emails, keys, n);
      var v := Classify(emails, keys, n).valid;
      var w := Classify(emails, keys, n - 1).valid;
      assert v == w || (v == w + [keys[n - 1]] && IsValidEmail(keys[n - 1]));
      forall k | 0 <= k < |v|
        ensures IsValidEmail(v[k]) && exists m :: 0 <= m < n && v[k] == keys[m]
      {
        if k < |w| {
          assert v[k] == w[k];
          assert IsValidEmail(w[k]) && exists m :: 0 <= m < n - 1 && w[k] == keys[m];
        } else {
          assert v[k] == keys[n - 1];
        }
      }
    }
  }

  /** Every entry of `valid` passes the check, is lower case, has nothing left to trim, and
      is the normalised form of one of the inputs. */
  lemma ValidEntries(emails: seq<string>)
    ensures var v := Classify(emails, NormalizeAll(emails), |emails|).valid;
      forall k :: 0 <= k < |v| ==>
        && IsValidEmail(v[k])
        && (forall m :: 0 <= m < |v[k]| ==> !('A' <= v[k][m] <= 'Z'))
        && Trim(v[k]) == v[k]
        && exists m :: 0 <= m < |emails| && v[k] == Normalize(emails[m])
  {
    var keys := NormalizeAll(emails);
    var v := Classify(emails, keys, |emails|).valid;
    forall k | 0 <= k < |v|
      ensures IsValidEmail(v[k])
      ensures (forall m :: 0 <= m < |v[k]| ==> !('A' <= v[k][m] <= 'Z')) && Trim(v[k]) == v[k]
      ensures exists m :: 0 <= m < |emails| && v[k] == Normalize(emails[m])
    {
      var m := ValidKeyAt(emails, keys, k);
      KeyFacts(emails[m]);
    }
  }

  /** The `k`-th valid entry and the position of the input it comes from. */
  lemma ValidKeyAt(emails: seq<string>, keys: seq<string>, k: nat) returns (m: nat)
    requires |keys| == |emails| && k < |Classify(emails, keys, |emails|).valid|
    ensures var v := Classify(emails, keys, |emails|).valid;
      IsValidEmail(v[k]) && m < |emails| && v[k] == keys[m]
  {
    ValidAreValidKeys(emails, keys, |emails|);
    var v := Classify(emails, keys, |emails|).valid;
    m :| 0 <= m < |emails| && v[k] == keys[m];
  }

  /** A valid key is lower case and trimmed. */
  lemma KeyFacts(e: string)
    requires IsValidEmail(Normalize(e))
    ensures var t := Normalize(e);
      (forall m :: 0 <= m < |t| ==> !('A' <= t[m] <= 'Z')) && Trim(t) == t
  {
    ValidIsTrimmed(Normalize(e));
  }

  /** A valid address has no whitespace, so trimming keeps it. */
  lemma ValidIsTrimmed(e: string)
    requires IsValidEmail(e)
    ensures Trim(e) == e
  {
    IsValidEmailIff(e);
    TrimKeeps(e);
  }

  /** How `validateBulk` treats the input at position `k`. */
  datatype Kind = Invalid | Duplicate | Fresh

  function KindAt(keys: seq<string>, k: nat): Kind
    requires k < |keys|
  {
    if !IsValidEmail(keys[k]) then Invalid
    else if exists m :: 0 <= m < k && keys[m] == keys[k] then Duplicate
    else Fresh
  }

  /** The inputs among the first `n` of the given kind, in input order: the key for Fresh
      ones, the original text otherwise. */
  function Collect(emails: seq<string>, keys: seq<string>, n: nat, kind: Kind): seq<string>
    requires |keys| == |emails| && n <= |emails|
  {
    if n == 0 then []
    else
      Collect(emails, keys, n - 1, kind)
      + (if KindAt(keys, n - 1) != kind then []
         else if kind == Fresh then [keys[n - 1]]
         else [emails[n - 1]])
  }

  /** The lists, input by input: `invalid` is the inputs whose key fails the check, as
      given; `duplicates` the inputs whose key an earlier input already had, as given; and
      `valid` the keys of the remaining first occurrences; each in input order. */
  lemma {:induction false} ClassifyByKind(emails: seq<string>, keys: seq<string>, n: nat)
    requires |keys| == |emails| && n <= |emails|
    ensures Classify(emails, keys, n)
         == BulkResult(Collect(emails, keys, n, Fresh), Collect(emails, keys, n, Invalid),
                       Collect(emails, keys, n, Duplicate))
  {
    if n > 0 {
      ClassifyByKind(emails, keys, n - 1);
      ValidAreSeen(emails, keys, n - 1);
      var t := keys[n - 1];
      if IsValidEmail(t) {
        if exists m :: 0 <= m < n - 1 && keys[m] == t {
          var m :| 0 <= m < n - 1 && keys[m] == t;
          assert IsValidEmail(keys[m]);
        }
      }
    }
  }
}
