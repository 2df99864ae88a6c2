/** The user document and the user store. The `email` field is stored
    trimmed and lower-cased, is required and is unique; `password` and
    `name` are required; `avatar` defaults to "". The store is keyed by the
    normalised email, so uniqueness is structural. The password field holds
    a bcrypt digest. */
module Users {
  import opened Common
  import opened Bcrypt

  // ---- email normalisation ---------------------------------------------

  /** The characters `String.prototype.trim` removes: white space (tab,
      vertical tab, form feed, space, no-break space, byte order mark and
      the space separators) and line terminators. */
  predicate IsWhitespace(c: char) {
    || c == ' ' || c == '\t' || c == '\n' || c == '\r'
    || c == '\U{000B}' || c == '\U{000C}' || c == '\U{00A0}' || c == '\U{1680}'
    || ('\U{2000}' <= c <= '\U{200A}')
    || c == '\U{2028}' || c == '\U{2029}' || c == '\U{202F}' || c == '\U{205F}'
    || c == '\U{3000}' || c == '\U{FEFF}'
  }

  function TrimStart(s: string): (r: string)
    ensures |r| <= |s| && r == s[|s| - |r|..]
    ensures r == [] || !IsWhitespace(r[0])
    ensures forall k :: 0 <= k < |s| - |r| ==> IsWhitespace(s[k])
  {
    if |s| > 0 && IsWhitespace(s[0]) then TrimStart(s[1..]) else s
  }

  function TrimEnd(s: string): (r: string)
    ensures |r| <= |s| && r == s[..|r|]
    ensures r == [] || !IsWhitespace(r[|r| - 1])
    ensures forall k :: |r| <= k < |s| ==> IsWhitespace(s[k])
  {
    if |s| > 0 && IsWhitespace(s[|s| - 1]) then TrimEnd(s[..|s| - 1]) else s
  }

  /** `String.prototype.trim`, the schema's `trim: true` setter. */
  function Trim(s: string): string {
    TrimEnd(TrimStart(s))
  }

  /** The ASCII part of `toLowerCase`, the schema's `lowercase: true`
      setter. */
  function LowerChar(c: char): char {
    if 'A' <= c <= 'Z' then (c as int + ('a' as int - 'A' as int)) as char else c
  }

  function Lower(s: string): (r: string)
    ensures |r| == |s|
    ensures forall k :: 0 <= k < |s| ==> r[k] == LowerChar(s[k])
  {
    if s == [] then [] else [LowerChar(s[0])] + Lower(s[1..])
  }

  /** The value the schema stores for an email, and the value a query on
      `email` is cast to. The result is in stored form. */
  function Normalize(email: string): (r: string)
    ensures IsNormalized(r)
    ensures |r| <= |email|
  {
    TrimmedLowerIsNormalized(email);
    Lower(Trim(email))
  }

  /** The stored form of an email, stated directly: no ASCII capital
      letter anywhere and no white space at either end. */
  predicate IsNormalized(email: string) {
    && (forall k :: 0 <= k < |email| ==> !('A' <= email[k] <= 'Z'))
    && (email == [] || (!IsWhitespace(email[0]) && !IsWhitespace(email[|email| - 1])))
  }

  // ---- the user document -------------------------------------------------

  datatype User = User(
    id: Id,
    email: string,
    password: Digest,
    name: string,
    avatar: string,
    created: nat)

  /** The schema's `required` constraints hold (an empty string does not
      satisfy `required`), and the email is in its stored form. */
  predicate SchemaValid(u: User) {
    u.email != "" && IsNormalized(u.email) && u.name != ""
  }

  /** The user collection keyed by (normalised) email, with the generator
      of fresh ids. */
  datatype UserStore = UserStore(byEmail: map<string, User>, nextId: Id)

  /** Every document satisfies the schema and sits under its own email, ids
      are fresh below `nextId` and no two documents share one. So every key
      is a non-empty email in stored form. */
  predicate StoreValid(store: UserStore): (r: bool)
    ensures r ==> forall e :: e in store.byEmail ==> e != "" && IsNormalized(e)
  {
    && (forall e :: e in store.byEmail ==>
          store.byEmail[e].email == e && SchemaValid(store.byEmail[e]) && store.byEmail[e].id < store.nextId)
    && (forall e1, e2 :: e1 in store.byEmail && e2 in store.byEmail && e1 != e2 ==>
          store.byEmail[e1].id != store.byEmail[e2].id)
  }

  /** `User.findOne({ email })`: the query value goes through the same
      setters as the stored value. */
  function FindByEmail(store: UserStore, email: string): (r: Option<User>)
    ensures r.Some? <==> Normalize(email) in store.byEmail
    ensures r.Some? ==> r.value == store.byEmail[Normalize(email)]
  {
    var key := Normalize(email);
    if key in store.byEmail then Some(store.byEmail[key]) else None
  }

  // ---- properties of normalisation ---------------------------------------

  /** Lower-casing is idempotent. */
  lemma {:induction false} LowerIdempotent(s: string)
    ensures Lower(Lower(s)) == Lower(s)
  {
    var once := Lower(s);
    var twice := Lower(once);
    forall k | 0 <= k < |s|
      ensures twice[k] == once[k]
    {
      assert once[k] == LowerChar(s[k]);
    }
  }

  /** Lower-casing leaves white space where it is. */
  lemma LowerKeepsWhitespace(c: char)
    ensures IsWhitespace(LowerChar(c)) <==> IsWhitespace(c)
  {
  }

  /** Trimming a lower-cased string equals lower-casing a trimmed one, so the
      order in which the two setters run does not matter. */
  lemma {:induction false} TrimLowerCommute(s: string)
    ensures Trim(Lower(s)) == Lower(Trim(s))
  {
    StartCommute(s);
    EndCommute(TrimStart(s));
  }

  lemma {:induction false} StartCommute(s: string)
    ensures TrimStart(Lower(s)) == Lower(TrimStart(s))
    decreases |s|
  {
    if |s| > 0 {
      var l := Lower(s);
      LowerKeepsWhitespace(s[0]);
      if IsWhitespace(s[0]) {
        assert Lower(s)[1..] == Lower(s[1..]);
        StartCommute(s[1..]);
      }
    }
  }

  lemma {:induction false} EndCommute(s: string)
    ensures TrimEnd(Lower(s)) == Lower(TrimEnd(s))
    decreases |s|
  {
    if |s| > 0 {
      LowerKeepsWhitespace(s[|s| - 1]);
      if IsWhitespace(s[|s| - 1]) {
        assert Lower(s)[..|s| - 1] == Lower(s[..|s| - 1]);
        EndCommute(s[..|s| - 1]);
      }
    }
  }

  lemma TrimmedLowerIsNormalized(email: string)
    ensures IsNormalized(Lower(Trim(email)))
  {
    var ts := TrimStart(email);
    var t := TrimEnd(ts);
    if t != [] {
      assert t[0] == ts[0];
      LowerKeepsWhitespace(t[0]);
      LowerKeepsWhitespace(t[|t| - 1]);
    }
  }

  /** Trimming is idempotent. */
  lemma TrimIdempotent(s: string)
    ensures Trim(Trim(s)) == Trim(s)
  {
    var t := Trim(s);
    assert TrimStart(t) == t;
    assert TrimEnd(t) == t;
  }

  /** Normalising removes white space from both ends and nothing else, and
      lower-cases what remains. */
  lemma NormalizeStripsPadding(email: string)
    ensures exists i, j ::
      && 0 <= i <= j <= |email| && Normalize(email) == Lower(email[i..j])
      && (forall k :: 0 <= k < i ==> IsWhitespace(email[k]))
      && (forall k :: j <= k < |email| ==> IsWhitespace(email[k]))
  {
    var i, j := TrimBounds(email);
    assert Normalize(email) == Lower(email[i..j]);
  }

  /** Where the trimmed text sits inside the original. */
  lemma TrimBounds(email: string) returns (i: nat, j: nat)
    ensures i <= j <= |email| && Trim(email) == email[i..j]
    ensures forall k :: 0 <= k < i ==> IsWhitespace(email[k])
    ensures forall k :: j <= k < |email| ==> IsWhitespace(email[k])
  {
    var ts := TrimStart(email);
    var t := TrimEnd(ts);
    i, j := |email| - |ts|, |email| - |ts| + |t|;
    assert t == email[i..j];
    forall k | j <= k < |email|
      ensures IsWhitespace(email[k])
    {
      assert email[k] == ts[k - i];
    }
  }

  /** The direct description of the stored form agrees with normalisation:
      an email is in stored form exactly when normalising leaves it as it
      is. */
  lemma {:induction false} NormalizedIsFixed(email: string)
    ensures IsNormalized(email) <==> Normalize(email) == email
  {
    if IsNormalized(email) {
      assert TrimStart(email) == email;
      assert TrimEnd(email) == email;
      assert Lower(email) == email;
    }
  }

  /** A document satisfies the schema exactly when its email and name are
      non-empty and the email setters would leave the email unchanged. */
  lemma SchemaValidIsStoredForm(u: User)
    ensures SchemaValid(u) <==> u.email != "" && u.name != "" && Normalize(u.email) == u.email
  {
    NormalizedIsFixed(u.email);
  }

  /** In a valid store every user is found by its own stored email, so
      re-querying a saved user finds that same document. */
  lemma StoredUserIsFound(store: UserStore, e: string)
    requires StoreValid(store) && e in store.byEmail
    ensures FindByEmail(store, store.byEmail[e].email) == Some(store.byEmail[e])
  {
    NormalizedIsFixed(e);
  }

  /** A stored email normalises to itself: re-saving or re-querying a stored
      email finds the same document. */
  lemma NormalizeIdempotent(email: string)
    ensures Normalize(Normalize(email)) == Normalize(email)
  {
    NormalizedIsFixed(Normalize(email));
  }

  /** Emails that differ only in ASCII letter case and surrounding white
      space normalise to the same key. */
  lemma NormalizeIgnoresCaseAndPadding(email: string, pad1: string, pad2: string)
    requires forall k :: 0 <= k < |pad1| ==> IsWhitespace(pad1[k])
    requires forall k :: 0 <= k < |pad2| ==> IsWhitespace(pad2[k])
    ensures Normalize(pad1 + Lower(email) + pad2) == Normalize(email)
  {
    PaddedLowerTrims(email, pad1, pad2);
  }

  lemma {:induction false} PaddedLowerTrims(email: string, pad1: string, pad2: string)
    requires forall k :: 0 <= k < |pad1| ==> IsWhitespace(pad1[k])
    requires forall k :: 0 <= k < |pad2| ==> IsWhitespace(pad2[k])
    ensures Lower(Trim(pad1 + Lower(email) + pad2)) == Lower(Trim(email))
  {
    var s := pad1 + Lower(email) + pad2;
    PadStart(pad1, Lower(email) + pad2);
    assert s == pad1 + (Lower(email) + pad2);
    PadEnd(Lower(email), pad2);
    TrimLowerCommute(email);
    LowerIdempotent(Trim(email));
    assert Trim(s) == Trim(Lower(email));
  }

  lemma {:induction false} PadStart(pad: string, s: string)
    requires forall k :: 0 <= k < |pad| ==> IsWhitespace(pad[k])
    ensures TrimStart(pad + s) == TrimStart(s)
    decreases |pad|
  {
    if pad != [] {
      assert (pad + s)[1..] == pad[1..] + s;
      PadStart(pad[1..], s);
    } else {
      assert pad + s == s;
    }
  }

  lemma {:induction false} PadEnd(s: string, pad: string)
    requires forall k :: 0 <= k < |pad| ==> IsWhitespace(pad[k])
    ensures TrimEnd(TrimStart(s + pad)) == TrimEnd(TrimStart(s))
    decreases |pad|
  {
    if pad != [] {
      var shorter := pad[..|pad| - 1];
      assert s + pad == (s + shorter) + [pad[|pad| - 1]];
      PadEnd(s, shorter);
      LastWhitespaceIgnored(s + shorter, pad[|pad| - 1]);
    } else {
      assert s + pad == s;
    }
  }

  lemma LastWhitespaceIgnored(s: string, c: char)
    requires IsWhitespace(c)
    ensures Trim(s + [c]) == Trim(s)
  {
    var ts := TrimStart(s);
    if ts == [] {
      assert forall k :: 0 <= k < |s| ==> IsWhitespace(s[k]);
      AllWhitespaceTrimsStart(s + [c]);
    } else {
      TrimStartAppend(s, [c]);
      assert TrimStart(s + [c]) == ts + [c];
      assert (ts + [c])[..|ts|] == ts;
    }
  }

  lemma {:induction false} AllWhitespaceTrimsStart(s: string)
    requires forall k :: 0 <= k < |s| ==> IsWhitespace(s[k])
    ensures TrimStart(s) == []
    decreases |s|
  {
    if s != [] {
      AllWhitespaceTrimsStart(s[1..]);
    }
  }

  lemma {:induction false} TrimStartAppend(s: string, t: string)
    requires TrimStart(s) != []
    ensures TrimStart(s + t) == TrimStart(s) + t
    decreases |s|
  {
    if |s| > 0 && IsWhitespace(s[0]) {
      assert (s + t)[1..] == s[1..] + t;
      TrimStartAppend(s[1..], t);
    }
  }
}
