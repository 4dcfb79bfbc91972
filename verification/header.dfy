/**
 * The `authorization` header parsing done by the token gate of the vault
 * routes (routes/manage.js:8): the header is split on single spaces and the
 * second field is taken as the token. The scheme word in front of it is never
 * inspected, so `Basic abc` yields `abc` just as `Bearer abc` does.
 */
module Header {
  import opened Common

  const Space: char := ' '

  /** JavaScript's `s.split(" ")`: the (possibly empty) runs of characters
      between single spaces, in order; a string with n spaces has n + 1 fields. */
  function Split(s: string): (fields: seq<string>)
    ensures |fields| >= 1
    ensures forall i :: 0 <= i < |fields| ==> Space !in fields[i]
    decreases |s|
  {
    if |s| == 0 then [""]
    else
      var rest := Split(s[1..]);
      if s[0] == Space then [""] + rest
      else [[s[0]] + rest[0]] + rest[1..]
  }

  /** JavaScript's `fields.join(" ")`, the reference that `Split` inverts. */
  function Join(fields: seq<string>): string
    requires |fields| >= 1
    decreases |fields|
  {
    if |fields| == 1 then fields[0] else fields[0] + [Space] + Join(fields[1..])
  }

  /** Gluing a character onto the first field glues it onto the joined string. */
  lemma {:induction false} JoinConsFirst(c: char, fields: seq<string>)
    requires |fields| >= 1
    ensures Join([[c] + fields[0]] + fields[1..]) == [c] + Join(fields)
  {
  }

  /** Splitting loses nothing: the fields joined again give the header back. */
  lemma {:induction false} JoinSplit(s: string)
    ensures Join(Split(s)) == s
    decreases |s|
  {
    if |s| > 0 {
      var rest := Split(s[1..]);
      JoinSplit(s[1..]);
      if s[0] == Space {
        var fields := [""] + rest;
        assert fields[1..] == rest;
        assert s == [s[0]] + s[1..];
      } else {
        JoinConsFirst(s[0], rest);
        assert s == [s[0]] + s[1..];
      }
    }
  }

  /** A run of non-space characters in front of the input is absorbed into the first field. */
  lemma {:induction false} SplitPrefix(w: string, s: string)
    requires Space !in w
    ensures Split(w + s) == [w + Split(s)[0]] + Split(s)[1..]
    decreases |w|
  {
    if |w| == 0 {
      assert w + s == s;
      assert w + Split(s)[0] == Split(s)[0];
    } else {
      var tail := w[1..];
      assert (w + s)[1..] == tail + s;
      assert (w + s)[0] == w[0];
      assert w[0] != Space by { assert w[0] in w; }
      assert Space !in tail by {
        forall k | 0 <= k < |tail| ensures tail[k] != Space {
          assert tail[k] == w[k + 1];
        }
      }
      SplitPrefix(tail, s);
      assert [w[0]] + (tail + Split(s)[0]) == w + Split(s)[0];
    }
  }

  /** Fields without spaces are recovered exactly by splitting their join. */
  lemma {:induction false} SplitJoin(fields: seq<string>)
    requires |fields| >= 1
    requires forall i :: 0 <= i < |fields| ==> Space !in fields[i]
    ensures Split(Join(fields)) == fields
    decreases |fields|
  {
    if |fields| == 1 {
      SplitPrefix(fields[0], "");
      assert fields[0] + "" == fields[0];
    } else {
      var tail := Join(fields[1..]);
      SplitJoin(fields[1..]);
      var spaced := [Space] + tail;
      assert spaced[0] == Space && spaced[1..] == tail;
      assert Split(spaced) == [""] + fields[1..];
      assert Join(fields) == fields[0] + spaced;
      SplitPrefix(fields[0], spaced);
      assert fields[0] + "" == fields[0];
    }
  }

  /** `req.headers.authorization?.split(" ")[1]` followed by the `!token`
      test: an absent header, a header with no second field, or an empty
      second field (two spaces in a row) gives no token. */
  function BearerToken(authorization: Option<string>): (token: Option<string>)
    ensures authorization.None? ==> token.None?
    ensures token.Some? ==> token.value != "" && Space !in token.value
  {
    match authorization
    case None => None
    case Some(header) =>
      var fields := Split(header);
      if |fields| < 2 || fields[1] == "" then None else Some(fields[1])
  }

  /** Every header is the join of its own space-free fields, and on such a
      join the token is the second field when there is a non-empty one. */
  lemma BearerTokenOfFields(fields: seq<string>)
    requires |fields| >= 1
    requires forall i :: 0 <= i < |fields| ==> Space !in fields[i]
    ensures BearerToken(Some(Join(fields)))
            == if |fields| >= 2 && fields[1] != "" then Some(fields[1]) else None
  {
    SplitJoin(fields);
  }

  /** The scheme word is ignored: any space-free word, a space and a
      non-empty space-free token yield that token. */
  lemma SchemeIgnored(scheme: string, token: string)
    requires Space !in scheme
    requires token != "" && Space !in token
    ensures BearerToken(Some(scheme + [Space] + token)) == Some(token)
  {
    var fields := [scheme, token];
    assert fields[1..] == [token];
    assert Join(fields) == scheme + [Space] + token;
    BearerTokenOfFields(fields);
  }

  /** Concrete headers: the usual form, another scheme word, no second
      field, and a doubled space. */
  lemma BearerTokenExamples()
    ensures BearerToken(Some("Bearer abc")) == Some("abc")
    ensures BearerToken(Some("Basic abc")) == Some("abc")
    ensures BearerToken(Some("abc")) == None
    ensures BearerToken(Some("Bearer  abc")) == None
    ensures BearerToken(Some("")) == None
  {
    SchemeIgnored("Bearer", "abc");
    assert "Bearer" + [Space] + "abc" == "Bearer abc";
    SchemeIgnored("Basic", "abc");
    assert "Basic" + [Space] + "abc" == "Basic abc";
    BearerTokenOfFields(["abc"]);
    var doubled := ["Bearer", "", "abc"];
    assert doubled[1..] == ["", "abc"] && doubled[1..][1..] == ["abc"];
    assert Join(doubled) == "Bearer  abc";
    BearerTokenOfFields(doubled);
    BearerTokenOfFields([""]);
  }
}
