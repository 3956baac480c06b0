/** How the server finds the calling user (main-1.py, `get_current_user_id`):
    the `Authorization` header is split on single spaces in the manner of
    Python's `str.split(' ')`, its second field is taken as the token, and the
    token's verified claims supply `user_id`. Signature checking and expiry
    (`jwt.decode`) belong to a library outside the model and are passed in as
    the function `verify`. */
module Auth {
  import opened Common

  /** The claims of a verified token; `userId` is absent when the payload has
      no `user_id` entry. */
  datatype Claims = Claims(userId: Option<int>)

  /** Python's `s.split(sep)` with an explicit one-character separator: every
      occurrence of `sep` ends a field, so there is always one more field than
      there are separators, and fields may be empty. */
  function Split(s: string, sep: char): (r: seq<string>)
    ensures |r| >= 1
    ensures forall i :: 0 <= i < |r| ==> sep !in r[i]
    ensures |r| == 1 <==> sep !in s
    decreases |s|
  {
    if |s| == 0 then [""]
    else
      var rest := Split(s[1..], sep);
      if s[0] == sep then [""] + rest
      else [[s[0]] + rest[0]] + rest[1..]
  }

  /** Python's `sep.join(parts)`. */
  function Join(parts: seq<string>, sep: char): string
    requires |parts| >= 1
    decreases |parts|
  {
    if |parts| == 1 then parts[0] else parts[0] + [sep] + Join(parts[1..], sep)
  }

  /** Splitting loses nothing: joining the fields back gives the header. */
  lemma {:induction false} JoinSplit(s: string, sep: char)
    ensures Join(Split(s, sep), sep) == s
    decreases |s|
  {
    if |s| > 0 {
      var rest := Split(s[1..], sep);
      JoinSplit(s[1..], sep);
      if s[0] == sep {
        assert ([""] + rest)[1..] == rest;
      } else {
        var r := [[s[0]] + rest[0]] + rest[1..];
        if |rest| == 1 {
          assert r == [[s[0]] + rest[0]];
        } else {
          assert r[1..] == rest[1..];
        }
      }
    }
  }

  /** The other direction: fields free of the separator are recovered exactly
      by splitting their join. */
  lemma {:induction false} SplitJoin(parts: seq<string>, sep: char)
    requires |parts| >= 1
    requires forall i :: 0 <= i < |parts| ==> sep !in parts[i]
    ensures Split(Join(parts, sep), sep) == parts
    decreases |parts|, |parts[0]|
  {
    if |parts[0]| == 0 {
      if |parts| > 1 {
        var tail := Join(parts[1..], sep);
        assert Join(parts, sep) == [sep] + tail;
        SplitJoin(parts[1..], sep);
        SplitAfterSep(tail, sep);
        assert parts == [""] + parts[1..];
      }
    } else {
      var c := parts[0][0];
      var w := parts[0][1..];
      var shorter := parts[0 := w];
      assert sep !in w by {
        forall k | 0 <= k < |w| ensures w[k] != sep {
          assert w[k] == parts[0][k + 1];
        }
      }
      assert forall i :: 0 <= i < |shorter| ==> sep !in shorter[i];
      SplitJoin(shorter, sep);
      JoinPrepend(shorter, c, sep);
      assert parts[0] == [c] + w;
      assert shorter[0 := [c] + w] == parts;
      SplitAfterChar(c, Join(shorter, sep), sep);
      assert [[c] + shorter[0]] + shorter[1..] == parts;
    }
  }

  /** Splitting text that starts with the separator gives an empty first
      field, then the split of the rest. */
  lemma SplitAfterSep(s: string, sep: char)
    ensures Split([sep] + s, sep) == [""] + Split(s, sep)
  {
    assert ([sep] + s)[1..] == s;
  }

  /** Splitting text that starts with any other character puts it in front
      of the first field. */
  lemma SplitAfterChar(c: char, s: string, sep: char)
    requires c != sep
    ensures Split([c] + s, sep) == [[c] + Split(s, sep)[0]] + Split(s, sep)[1..]
  {
    assert ([c] + s)[1..] == s;
  }

  /** A character put in front of the first field comes first in the join. */
  lemma JoinPrepend(parts: seq<string>, c: char, sep: char)
    requires |parts| >= 1
    ensures Join(parts[0 := [c] + parts[0]], sep) == [c] + Join(parts, sep)
  {
    if |parts| > 1 {
      assert parts[0 := [c] + parts[0]][1..] == parts[1..];
    }
  }

  /** The position of the first `c` in `s`, if any. */
  function IndexOf(s: string, c: char): (r: Option<nat>)
    ensures r.Some? ==> r.value < |s| && s[r.value] == c && c !in s[..r.value]
    ensures r.None? <==> c !in s
    decreases |s|
  {
    if |s| == 0 then None
    else if s[0] == c then Some(0)
    else
      match IndexOf(s[1..], c)
      case None => None
      case Some(k) =>
        assert s[..k + 1] == [s[0]] + s[1..][..k];
        Some(k + 1)
  }

  /** The token a header carries, read directly: the text after the first
      space, up to the next space or the end. */
  function TokenField(header: string): Option<string> {
    match IndexOf(header, ' ')
    case None => None
    case Some(i) =>
      var rest := header[i + 1..];
      match IndexOf(rest, ' ')
      case None => Some(rest)
      case Some(j) => Some(rest[..j])
  }

  /** The first field of a split is the text before the first separator, and
      the remaining fields are the split of what follows it. */
  lemma {:induction false} SplitAtFirst(s: string, sep: char, i: nat)
    requires i < |s| && s[i] == sep && sep !in s[..i]
    ensures Split(s, sep) == [s[..i]] + Split(s[i + 1..], sep)
    decreases i
  {
    if i > 0 {
      PrefixOfTail(s, sep, i);
      SplitAtFirst(s[1..], sep, i - 1);
      assert s[1..][i - 1 + 1..] == s[i + 1..];
      SplitAfterChar(s[0], s[1..], sep);
      assert [s[0]] + s[1..] == s;
    }
  }

  /** The first `i` characters of `s`, none of them the separator, are its
      first character followed by the first `i - 1` characters of its tail. */
  lemma PrefixOfTail(s: string, sep: char, i: nat)
    requires 0 < i < |s| && sep !in s[..i]
    ensures s[0] != sep && sep !in s[1..][..i - 1]
    ensures s[..i] == [s[0]] + s[1..][..i - 1]
  {
    var t := s[1..][..i - 1];
    forall k | 0 <= k < |t| ensures t[k] != sep {
      assert t[k] == s[..i][k + 1];
    }
    assert s[0] == s[..i][0];
  }

  /** With no separator left, the split is the whole string. */
  lemma SplitNoSep(s: string, sep: char)
    requires sep !in s
    ensures Split(s, sep) == [s]
  {
    JoinSplit(s, sep);
  }

  /** `header.split(' ')[1]` is exactly the token read directly, and it
      exists exactly when the header contains a space. */
  lemma SecondFieldIsToken(header: string)
    ensures |Split(header, ' ')| >= 2 <==> TokenField(header).Some?
    ensures |Split(header, ' ')| >= 2 ==> Split(header, ' ')[1] == TokenField(header).value
  {
    match IndexOf(header, ' ')
    case None =>
    case Some(i) =>
      SplitAtFirst(header, ' ', i);
      var rest := header[i + 1..];
      match IndexOf(rest, ' ')
      case None =>
        SplitNoSep(rest, ' ');
      case Some(j) =>
        SplitAtFirst(rest, ' ', j);
  }

  /** `get_current_user_id`: no header or an empty one, a header without a
      second space-separated field, a token that fails verification and a
      payload without `user_id` all give `None` (the helper's bare `except`
      swallows the last three). */
  function CurrentUserId(header: Option<string>, verify: string -> Option<Claims>): (r: Option<int>)
    ensures header.None? ==> r.None?
    ensures header == Some("") ==> r.None?
    ensures header.Some? && ' ' !in header.value ==> r.None?
    ensures r.Some? <==>
      header.Some? && TokenField(header.value).Some?
      && verify(TokenField(header.value).value).Some?
      && verify(TokenField(header.value).value).value.userId.Some?
    ensures r.Some? ==> r == verify(TokenField(header.value).value).value.userId
  {
    if header.None? || header.value == "" then None
    else
      var parts := Split(header.value, ' ');
      SecondFieldIsToken(header.value);
      if |parts| < 2 then None
      else
        match verify(parts[1])
        case None => None
        case Some(claims) => claims.userId
  }
}
