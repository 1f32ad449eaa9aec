/** Identifiers, optional values, API errors and the sequence helpers every
    other module of the chat model builds on. */
module Base {

  /** Database and transport identifiers are opaque strings. */
  type UserId = string
  type SocketId = string
  type GroupId = string
  type MessageId = string

  datatype Option<+T> = None | Some(value: T) {
    function GetOr(default: T): T {
      match this
      case Some(v) => v
      case None => default
    }
  }

  /** JavaScript truthiness of an optional string: absent and "" are falsy. */
  predicate Truthy(s: Option<string>) {
    s.Some? && s.value != ""
  }

  /** A reference to a user as it reaches a client: the raw id, or the user
      document after the server populated it (an object with `_id`). */
  datatype UserRef = Raw(id: UserId) | Populated(id: UserId)

  /** `ref._id === u`: only a populated reference has an `_id` field. */
  predicate HasIdField(r: UserRef, u: UserId) {
    r.Populated? && r.id == u
  }

  /** `ref._id === u || ref === u`: the reference denotes `u` in either form. */
  predicate RefersTo(r: UserRef, u: UserId) {
    (r.Populated? && r.id == u) || (r.Raw? && r.id == u)
  }

  /** The error responses the controllers return, one per distinct check. */
  datatype ApiError =
    | InvalidStatus        // status outside {"delivered", "read"}
    | CannotDowngrade      // read -> delivered
    | MessageNotFound
    | NotReceiver          // only the receiver may update a status
    | MissingGroupFields   // createGroup without name or members
    | GroupNotFound
    | NotGroupMember
    | NotGroupAdmin
    | InvalidMemberIds     // addGroupMembers without a non-empty array
    | NoRemovePermission   // neither the admin nor the member themself
    | AdminCannotLeave
    | EmptyMessage         // group message without text and image
    | NotMessageOwner      // neither the sender nor the group admin
    | CannotBlockSelf
    | UserNotFound
    | AlreadyBlocked
  {
    /** The HTTP status code the controller answers with. */
    function Code(): nat {
      match this
      case MessageNotFound | GroupNotFound | UserNotFound => 404
      case NotReceiver | NotGroupMember | NotGroupAdmin | NoRemovePermission | NotMessageOwner => 403
      case _ => 400
    }
  }

  datatype Result<+T> = Ok(value: T) | Err(error: ApiError)

  /** No element occurs twice. */
  predicate Distinct<T(==)>(s: seq<T>) {
    forall i, j :: 0 <= i < j < |s| ==> s[i] != s[j]
  }

  /** `Array.prototype.filter`: the elements satisfying `p`, in order. */
  function Filter<T>(s: seq<T>, p: T -> bool): (r: seq<T>)
    ensures |r| <= |s|
    ensures forall i :: 0 <= i < |r| ==> r[i] in s && p(r[i])
    ensures forall i :: 0 <= i < |s| && p(s[i]) ==> s[i] in r
  {
    if |s| == 0 then []
    else (if p(s[0]) then [s[0]] else []) + Filter(s[1..], p)
  }

  /** Every occurrence of `x` dropped: `array.filter(y => y !== x)` and
      Mongo's `$pull`. */
  function Pull<T(==)>(s: seq<T>, x: T): seq<T> {
    Filter(s, (y: T) => y != x)
  }

  /** `Array.prototype.findIndex` for equality: the first position of `x`,
      or -1 when `x` does not occur. */
  function Find<T(==)>(s: seq<T>, x: T): (i: int)
    ensures -1 <= i < |s|
    ensures i >= 0 ==> s[i] == x && forall j :: 0 <= j < i ==> s[j] != x
    ensures i == -1 <==> x !in s
  {
    if |s| == 0 then -1
    else if s[0] == x then 0
    else
      var j := Find(s[1..], x);
      if j < 0 then -1 else j + 1
  }

  /** One step of `Filter`: the head, kept or not, before the filtered tail. */
  lemma FilterStep<T>(s: seq<T>, p: T -> bool)
    requires |s| > 0
    ensures Filter(s, p) == (if p(s[0]) then [s[0]] else []) + Filter(s[1..], p)
  {
  }

  /** `r` can be obtained from `s` by deleting elements: same elements,
      same relative order. */
  predicate Subsequence<T(==)>(r: seq<T>, s: seq<T>)
    decreases |s|
  {
    || |r| == 0
    || (&& |s| > 0
        && (|| (r[0] == s[0] && Subsequence(r[1..], s[1..]))
            || Subsequence(r, s[1..])))
  }

  /** Filtering keeps relative order. */
  lemma {:induction false} FilterSubsequence<T>(s: seq<T>, p: T -> bool)
    ensures Subsequence(Filter(s, p), s)
  {
    if |s| > 0 {
      FilterSubsequence(s[1..], p);
      FilterStep(s, p);
      var r, rest := Filter(s, p), Filter(s[1..], p);
      if p(s[0]) {
        assert r[0] == s[0] && r[1..] == rest;
      } else {
        assert r == rest;
      }
    }
  }

  /** The opposite test. */
  function Not<T>(p: T -> bool): T -> bool {
    (x: T) => !p(x)
  }

  /** A filter and the filter by the opposite test share out the input. */
  lemma {:induction false} FilterPartition<T>(s: seq<T>, p: T -> bool)
    ensures multiset(Filter(s, p)) + multiset(Filter(s, Not(p))) == multiset(s)
  {
    if |s| > 0 {
      var t := s[1..];
      assert s == [s[0]] + t;
      calc {
        multiset(Filter(s, p)) + multiset(Filter(s, Not(p)));
        == { FilterPartitionHead(s, p); }
        multiset{s[0]} + (multiset(Filter(t, p)) + multiset(Filter(t, Not(p))));
        == { FilterPartition(t, p); }
        multiset{s[0]} + multiset(t);
      }
    }
  }

  lemma FilterPartitionHead<T>(s: seq<T>, p: T -> bool)
    requires |s| > 0
    ensures multiset(Filter(s, p)) + multiset(Filter(s, Not(p)))
         == multiset{s[0]} + multiset(Filter(s[1..], p)) + multiset(Filter(s[1..], Not(p)))
  {
    FilterStep(s, p);
    FilterStep(s, Not(p));
  }

  lemma {:induction false} FilterAppend<T>(a: seq<T>, b: seq<T>, p: T -> bool)
    ensures Filter(a + b, p) == Filter(a, p) + Filter(b, p)
  {
    if |a| == 0 {
      assert a + b == b;
    } else {
      assert (a + b)[1..] == a[1..] + b;
      FilterAppend(a[1..], b, p);
    }
  }

  /** Filtering keeps a duplicate-free sequence duplicate-free. */
  lemma {:induction false} FilterDistinct<T>(s: seq<T>, p: T -> bool)
    requires Distinct(s)
    ensures Distinct(Filter(s, p))
  {
    if |s| > 0 {
      assert Distinct(s[1..]) by {
        forall i, j | 0 <= i < j < |s[1..]| ensures s[1..][i] != s[1..][j] {
          assert s[1..][i] == s[i + 1] && s[1..][j] == s[j + 1];
        }
      }
      FilterDistinct(s[1..], p);
      assert s[0] !in s[1..];
      var rest := Filter(s[1..], p);
      assert s[0] !in rest;
      var head: seq<T> := if p(s[0]) then [s[0]] else [];
      assert Filter(s, p) == head + rest;
      forall i, j | 0 <= i < j < |head + rest| ensures (head + rest)[i] != (head + rest)[j] {
        if i < |head| {
          assert (head + rest)[j] in rest;
        } else {
          assert (head + rest)[i] == rest[i - |head|] && (head + rest)[j] == rest[j - |head|];
        }
      }
    }
  }

  /** Dropping an element that does not occur changes nothing. */
  lemma {:induction false} PullAbsent<T>(s: seq<T>, x: T)
    requires x !in s
    ensures Pull(s, x) == s
  {
    if |s| > 0 {
      PullAbsent(s[1..], x);
      assert s == [s[0]] + s[1..];
    }
  }

  /** Dropping an element keeps a duplicate-free sequence duplicate-free. */
  lemma PullDistinct<T>(s: seq<T>, x: T)
    requires Distinct(s)
    ensures Distinct(Pull(s, x))
  {
    FilterDistinct(s, (y: T) => y != x);
  }

  lemma PullAppend<T>(a: seq<T>, b: seq<T>, x: T)
    ensures Pull(a + b, x) == Pull(a, x) + Pull(b, x)
  {
    FilterAppend(a, b, (y: T) => y != x);
  }
}
