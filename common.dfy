/**
 * Small shared vocabulary: optional values, the outcome of a call to the
 * hosted backend, and the JavaScript string idioms the pages rely on
 * (`s || null`, `o || ''`, truthiness of an optional string, `join`).
 */
module Common {

  datatype Option<+T> = None | Some(value: T)

  /** Outcome of a remote write (insert, update, delete, upload without a URL). */
  datatype Outcome = Ok | Error(message: string)

  /** Outcome of a remote call that yields a value on success (an upload yields its public URL). */
  datatype Remote<+T> = Done(value: T) | Failed(message: string)

  /** JavaScript truthiness of a `string | null`: null and '' are falsy. */
  predicate Truthy(o: Option<string>)
  {
    o.Some? && o.value != ""
  }

  /** `s || null`: the empty string is stored as null. */
  function OrNull(s: string): (r: Option<string>)
    ensures r.None? <==> s == ""
    ensures r.Some? ==> r.value == s
  {
    if s == "" then None else Some(s)
  }

  /** `o || ''`: a null (or empty) value is shown as the empty string. */
  function OrEmpty(o: Option<string>): (r: string)
    ensures r == "" <==> !Truthy(o)
    ensures Truthy(o) ==> r == o.value
  {
    if Truthy(o) then o.value else ""
  }

  /** An optional text field as the database can hold it after a form save: null or non-empty. */
  predicate Canonical(o: Option<string>)
  {
    o.None? || o.value != ""
  }

  /** Loading a nullable column into a text input and saving it back is the identity on the text. */
  lemma OrNullOrEmpty(s: string)
    ensures OrEmpty(OrNull(s)) == s
  {
  }

  /**
   * Saving an unedited field writes back the stored value exactly when that value is
   * canonical: null and non-empty text survive, a stored '' comes back as null.
   */
  lemma OrEmptyOrNull(o: Option<string>)
    ensures OrNull(OrEmpty(o)) == o <==> Canonical(o)
    ensures o == Some("") ==> OrNull(OrEmpty(o)) == None
  {
  }

  /** `parts.join(sep)` */
  function Join(parts: seq<string>, sep: string): (r: string)
    ensures parts == [] ==> r == ""
    ensures |parts| == 1 ==> r == parts[0]
    decreases |parts|
  {
    if parts == [] then ""
    else if |parts| == 1 then parts[0]
    else parts[0] + sep + Join(parts[1..], sep)
  }

  /** The summed length of the parts. */
  function TotalLength(parts: seq<string>): nat
  {
    if parts == [] then 0 else |parts[0]| + TotalLength(parts[1..])
  }

  /** Joining one more part appends the separator and that part. */
  lemma {:induction false} JoinSnoc(parts: seq<string>, last: string, sep: string)
    requires parts != []
    ensures Join(parts + [last], sep) == Join(parts, sep) + sep + last
  {
    var all := parts + [last];
    assert all[0] == parts[0];
    if |parts| == 1 {
      assert all[1..] == [last];
    } else {
      assert all[1..] == parts[1..] + [last];
      JoinSnoc(parts[1..], last, sep);
    }
  }

  /** The joined text holds every part and one separator between each two neighbours. */
  lemma {:induction false} JoinLength(parts: seq<string>, sep: string)
    requires parts != []
    ensures |Join(parts, sep)| == TotalLength(parts) + (|parts| - 1) * |sep|
  {
    if |parts| > 1 {
      JoinLength(parts[1..], sep);
      assert (|parts| - 1) * |sep| == (|parts| - 2) * |sep| + |sep|;
    }
  }

  /** `sep` occurs in `s` at position `i`. */
  predicate OccursAt(s: string, sep: string, i: int)
  {
    0 <= i && i + |sep| <= |s| && s[i..i + |sep|] == sep
  }

  /** `sep` occurs somewhere in `s`. */
  predicate Contains(s: string, sep: string)
  {
    exists i :: 0 <= i <= |s| && OccursAt(s, sep, i)
  }

  /** `s.split(sep)` for a non-empty separator: the pieces between the occurrences of `sep`, left to right. */
  function Split(s: string, sep: string): (r: seq<string>)
    requires sep != []
    ensures |r| >= 1
    decreases |s|
  {
    if |s| < |sep| then [s]
    else if s[..|sep|] == sep then [""] + Split(s[|sep|..], sep)
    else
      var rest := Split(s[1..], sep);
      [[s[0]] + rest[0]] + rest[1..]
  }

  lemma NotAtStart(n: string)
    requires !Contains(n, ", ") && |n| >= 2
    ensures n[..2] != ", "
  {
    if n[..2] == ", " {
      assert OccursAt(n, ", ", 0);
    }
  }

  lemma NotInTail(n: string)
    requires !Contains(n, ", ") && n != []
    ensures !Contains(n[1..], ", ")
  {
    if Contains(n[1..], ", ") {
      var i :| 0 <= i <= |n[1..]| && OccursAt(n[1..], ", ", i);
      assert n[i + 1..i + 1 + 2] == n[1..][i..i + 2];
      assert OccursAt(n, ", ", i + 1);
    }
  }

  /** A piece without ", " splits off whole in front of the separator that follows it. */
  lemma {:induction false} SplitAfterPiece(n: string, t: string)
    requires !Contains(n, ", ")
    ensures Split(n + ", " + t, ", ") == [n] + Split(t, ", ")
    decreases |n|
  {
    var s := n + ", " + t;
    if n == [] {
      assert s[..2] == ", " && s[2..] == t;
    } else {
      if |n| >= 2 {
        NotAtStart(n);
        assert s[..2] == n[..2];
      } else {
        assert s[1] == ',';
      }
      NotInTail(n);
      SplitAfterPiece(n[1..], t);
      assert s[1..] == n[1..] + ", " + t;
      var rest := Split(s[1..], ", ");
      assert rest[1..] == Split(t, ", ");
      assert [s[0]] + n[1..] == n;
    }
  }

  /** A text without ", " splits into itself alone. */
  lemma {:induction false} SplitWhole(n: string)
    requires !Contains(n, ", ")
    ensures Split(n, ", ") == [n]
    decreases |n|
  {
    if |n| >= 2 {
      NotAtStart(n);
      NotInTail(n);
      SplitWhole(n[1..]);
      assert [n[0]] + n[1..] == n;
    }
  }

  /** When no part contains ", ", splitting the text joined with ", " gives the parts back. */
  lemma {:induction false} SplitJoin(parts: seq<string>)
    requires parts != []
    requires forall k :: 0 <= k < |parts| ==> !Contains(parts[k], ", ")
    ensures Split(Join(parts, ", "), ", ") == parts
  {
    if |parts| == 1 {
      SplitWhole(parts[0]);
    } else {
      SplitJoin(parts[1..]);
      SplitAfterPiece(parts[0], Join(parts[1..], ", "));
      assert parts == [parts[0]] + parts[1..];
    }
  }

  /** `s.startsWith(prefix)` */
  predicate StartsWith(s: string, prefix: string)
  {
    prefix <= s
  }

  function Min(a: int, b: int): int
  {
    if a <= b then a else b
  }
}
