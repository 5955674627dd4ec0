/**
 * Keys of the per-commit store: the format check done before a write, and the
 * translation of a key into the tree path `[commit hex] + key segments`.
 *
 * A key is split on '/' the way Python's `str.split('/')` does, and the empty
 * pieces are dropped, so leading, trailing and repeated slashes do not matter.
 */
module Keys {
  import opened Wrappers
  import opened Errors
  import Objects

  /** A commit's SHA-1 in the 40-character lower-case hexadecimal form git prints. */
  type CommitHex = s: string | IsCommitHex(s)
    witness "0000000000000000000000000000000000000000"

  predicate IsHexDigit(c: char)
  {
    '0' <= c <= '9' || 'a' <= c <= 'f'
  }

  predicate IsCommitHex(s: string)
  {
    |s| == 40 && forall i :: 0 <= i < |s| ==> IsHexDigit(s[i])
  }

  /** The key argument of a write, which `__setitem__` may receive as any Python object. */
  datatype KeyArg = Str(text: string) | NotAString

  /** The characters of the key pattern `[a-z0-9-_/:]`, matched ignoring (ASCII) case. */
  predicate KeyChar(c: char)
  {
    || 'a' <= c <= 'z'
    || 'A' <= c <= 'Z'
    || '0' <= c <= '9'
    || c == '-' || c == '_' || c == '/' || c == ':'
  }

  /** At least one character, all from the key class: what `^[a-z0-9-_/:]+` must consume. */
  predicate KeyCharsOnly(s: string)
  {
    |s| > 0 && forall i :: 0 <= i < |s| ==> KeyChar(s[i])
  }

  /**
   * `re.match('^[a-z0-9-_/:]+$', s)` succeeds. Python's `$` also matches just
   * before a final newline, so one trailing '\n' after the class run is accepted.
   */
  predicate MatchesKeyFormat(s: string)
    ensures KeyCharsOnly(s) ==> MatchesKeyFormat(s)
    ensures MatchesKeyFormat(s) ==>
      && |s| > 0
      && (forall i :: 0 <= i < |s| - 1 ==> KeyChar(s[i]))
      && (KeyChar(s[|s| - 1]) || s[|s| - 1] == '\n')
  {
    KeyCharsOnly(s) || (|s| > 1 && s[|s| - 1] == '\n' && KeyCharsOnly(s[..|s| - 1]))
  }

  /** `_verify_key_format`: a type check, then the pattern check. */
  function VerifyKeyFormat(key: KeyArg): (r: Outcome<Error>)
    ensures r.Pass? <==> key.Str? && MatchesKeyFormat(key.text)
    ensures key.NotAString? ==> r == Fail(InvalidKeyType)
    ensures key.Str? && !MatchesKeyFormat(key.text) ==> r == Fail(InvalidKeyFormat)
  {
    match key
    case NotAString => Fail(InvalidKeyType)
    case Str(s) => if MatchesKeyFormat(s) then Pass else Fail(InvalidKeyFormat)
  }

  /** Python's `s.split('/')`: the pieces between slashes, empty ones included. */
  function Split(s: string): (r: seq<string>)
    ensures |r| >= 1
    decreases |s|
  {
    if |s| == 0 then [""]
    else
      var rest := Split(s[1..]);
      if s[0] == '/' then [""] + rest
      else [[s[0]] + rest[0]] + rest[1..]
  }

  /** Python's `'/'.join(pieces)`. */
  function Join(pieces: seq<string>): string
    decreases |pieces|
  {
    if |pieces| == 0 then ""
    else if |pieces| == 1 then pieces[0]
    else pieces[0] + "/" + Join(pieces[1..])
  }

  /** The list comprehension `[x for x in pieces if x]`. */
  function NonEmpty(pieces: seq<string>): (r: seq<string>)
    ensures |r| <= |pieces|
    ensures forall i :: 0 <= i < |r| ==> r[i] != "" && r[i] in pieces
    ensures forall x :: x in pieces && x != "" ==> x in r
    decreases |pieces|
  {
    if pieces == [] then []
    else if pieces[0] == "" then NonEmpty(pieces[1..])
    else [pieces[0]] + NonEmpty(pieces[1..])
  }

  /** The key's segments: the non-empty pieces of `key.split('/')`. */
  function KeySegments(key: string): (r: seq<string>)
    ensures forall i :: 0 <= i < |r| ==> r[i] != "" && '/' !in r[i]
    ensures forall x :: x in Split(key) && x != "" ==> x in r
    ensures forall i :: 0 <= i < |r| ==> r[i] in Split(key)
  {
    SplitPiecesSlashFree(key);
    NonEmpty(Split(key))
  }

  /** `_path_segments`: the tree path of a key in the store for `commit`. */
  function PathSegments(commit: CommitHex, key: string): (r: seq<string>)
    ensures |r| == |KeySegments(key)| + 1 && r[0] == commit && r[1..] == KeySegments(key)
    ensures forall i :: 0 <= i < |r| ==> r[i] != "" && '/' !in r[i]
  {
    assert !IsHexDigit('/');
    [commit] + KeySegments(key)
  }

  /** A legal path segment: non-empty, no slash, every character from the key pattern. */
  predicate IsSegment(s: string)
  {
    |s| > 0 && forall i :: 0 <= i < |s| ==> KeyChar(s[i]) && s[i] != '/'
  }

  /** No piece of a split contains the separator. */
  lemma {:induction false} SplitPiecesSlashFree(s: string)
    ensures forall i :: 0 <= i < |Split(s)| ==> '/' !in Split(s)[i]
    decreases |s|
  {
    if |s| > 0 {
      SplitPiecesSlashFree(s[1..]);
      var rest := Split(s[1..]);
      if s[0] != '/' {
        assert '/' !in [s[0]] + rest[0];
        assert forall i :: 1 <= i < |Split(s)| ==> Split(s)[i] == rest[i];
      } else {
        assert forall i :: 1 <= i < |Split(s)| ==> Split(s)[i] == rest[i - 1];
      }
    }
  }

  /** Splitting undoes joining, so `Split` loses nothing: `'/'.join(s.split('/')) == s`. */
  lemma {:induction false} JoinSplit(s: string)
    ensures Join(Split(s)) == s
    decreases |s|
  {
    if |s| > 0 {
      var rest := Split(s[1..]);
      JoinSplit(s[1..]);
      if s[0] == '/' {
        assert Join([""] + rest) == "" + "/" + Join(rest);
      } else {
        var r := [[s[0]] + rest[0]] + rest[1..];
        if |rest| == 1 {
          assert Join(r) == [s[0]] + rest[0];
        } else {
          assert r[1..] == rest[1..];
          assert Join(rest) == rest[0] + "/" + Join(rest[1..]);
        }
      }
    }
  }

  /** Joining slash-free pieces and splitting again gives the pieces back. */
  lemma {:induction false} SplitJoin(pieces: seq<string>)
    requires |pieces| >= 1
    requires forall i :: 0 <= i < |pieces| ==> '/' !in pieces[i]
    ensures Split(Join(pieces)) == pieces
    decreases |pieces|
  {
    if |pieces| == 1 {
      SplitSlashFree(pieces[0]);
    } else {
      SplitJoin(pieces[1..]);
      SplitConcat(pieces[0], Join(pieces[1..]));
      SplitSlashFree(pieces[0]);
    }
  }

  /** A string without slashes is a single piece. */
  lemma {:induction false} SplitSlashFree(s: string)
    requires '/' !in s
    ensures Split(s) == [s]
    decreases |s|
  {
    if |s| > 0 {
      assert '/' !in s[1..];
      SplitSlashFree(s[1..]);
      assert [s[0]] + s[1..] == s;
    }
  }

  /** Joining keys made of key characters gives such a key. */
  lemma KeyCharsConcat(x: string, y: string)
    requires KeyCharsOnly(x) && KeyCharsOnly(y)
    ensures KeyCharsOnly(x + y)
  {
    forall i | 0 <= i < |x + y| ensures KeyChar((x + y)[i]) {
      if i < |x| {
        assert (x + y)[i] == x[i];
      } else {
        assert (x + y)[i] == y[i - |x|];
      }
    }
  }

  /** Appending `/segment` to a key passes the format check and adds that one segment. */
  lemma AppendSegment(key: string, seg: string)
    requires KeyCharsOnly(key) && IsSegment(seg)
    ensures KeyCharsOnly(key + "/" + seg) && MatchesKeyFormat(key + "/" + seg)
    ensures KeySegments(key + "/" + seg) == KeySegments(key) + [seg]
  {
    SingleSegmentKey(seg);
    KeyCharsConcat(key, "/");
    KeyCharsConcat(key + "/", seg);
    KeySegmentsConcat(key, seg);
  }

  /** A slash between two strings separates their pieces. */
  lemma {:induction false} SplitConcat(a: string, b: string)
    ensures Split(a + "/" + b) == Split(a) + Split(b)
    decreases |a|
  {
    if |a| == 0 {
      assert a + "/" + b == "/" + b;
      SplitAfterSlash(b);
    } else {
      var c, x := a[0], a[1..];
      var xb := x + "/" + b;
      assert a == [c] + x;
      assert a + "/" + b == [c] + xb;
      SplitConcat(x, b);
      if c == '/' {
        assert Split([c] + xb) == [""] + Split(xb) by {
          SplitAfterSlash(xb);
        }
        assert Split([c] + x) == [""] + Split(x) by {
          SplitAfterSlash(x);
        }
      } else {
        var ra, t := Split(x), Split(xb);
        assert t == ra + Split(b);
        assert Split([c] + xb) == [[c] + t[0]] + t[1..] by {
          SplitAfterChar(c, xb);
        }
        assert Split([c] + x) == [[c] + ra[0]] + ra[1..] by {
          SplitAfterChar(c, x);
        }
        assert t[0] == ra[0] && t[1..] == ra[1..] + Split(b);
      }
    }
  }

  /** A leading slash starts an empty first piece. */
  lemma SplitAfterSlash(x: string)
    ensures Split("/" + x) == [""] + Split(x)
  {
    assert ("/" + x)[0] == '/' && ("/" + x)[1..] == x;
  }

  /** A leading non-slash character joins the first piece. */
  lemma SplitAfterChar(c: char, x: string)
    requires c != '/'
    ensures Split([c] + x) == [[c] + Split(x)[0]] + Split(x)[1..]
  {
    assert ([c] + x)[0] == c && ([c] + x)[1..] == x;
  }

  lemma {:induction false} NonEmptyConcat(a: seq<string>, b: seq<string>)
    ensures NonEmpty(a + b) == NonEmpty(a) + NonEmpty(b)
    decreases |a|
  {
    if a == [] {
      assert a + b == b;
    } else {
      assert (a + b)[0] == a[0];
      assert (a + b)[1..] == a[1..] + b;
      NonEmptyConcat(a[1..], b);
    }
  }

  /** The segments of `a/b` are those of `a` followed by those of `b`. */
  lemma KeySegmentsConcat(a: string, b: string)
    ensures KeySegments(a + "/" + b) == KeySegments(a) + KeySegments(b)
  {
    SplitConcat(a, b);
    NonEmptyConcat(Split(a), Split(b));
  }

  /**
   * Normalisation: leading, trailing and repeated slashes address the same
   * segments, so "/foo//bar/" and "foo/bar" are the same key.
   */
  lemma KeySegmentsIgnoreExtraSlashes(a: string, b: string)
    ensures KeySegments("/" + a) == KeySegments(a)
    ensures KeySegments(a + "/") == KeySegments(a)
    ensures KeySegments(a + "//" + b) == KeySegments(a + "/" + b)
  {
    LeadingSlashIgnored(a);
    TrailingSlashIgnored(a);
    RepeatedSlashIgnored(a, b);
  }

  lemma LeadingSlashIgnored(a: string)
    ensures KeySegments("/" + a) == KeySegments(a)
  {
    KeySegmentsConcat("", a);
    assert "" + "/" + a == "/" + a;
    assert KeySegments("") == [];
  }

  lemma TrailingSlashIgnored(a: string)
    ensures KeySegments(a + "/") == KeySegments(a)
  {
    KeySegmentsConcat(a, "");
    assert a + "/" + "" == a + "/";
    assert KeySegments("") == [];
  }

  lemma RepeatedSlashIgnored(a: string, b: string)
    ensures KeySegments(a + "//" + b) == KeySegments(a + "/" + b)
  {
    KeySegmentsConcat(a, "/" + b);
    assert a + "/" + ("/" + b) == a + "//" + b;
    LeadingSlashIgnored(b);
    KeySegmentsConcat(a, b);
  }

  /**
   * The spelling from the class documentation, "/foo//bar/" for "foo/bar",
   * for any two segments: it passes the format check and yields `[a, b]`.
   */
  lemma SlashesExample(a: string, b: string)
    requires IsSegment(a) && IsSegment(b)
    ensures MatchesKeyFormat("/" + a + "//" + b + "/")
    ensures KeySegments("/" + a + "//" + b + "/") == KeySegments(a + "/" + b) == [a, b]
  {
    var k := a + "//" + b;
    assert "/" + a + "//" + b + "/" == "/" + (k + "/");
    LeadingSlashIgnored(k + "/");
    TrailingSlashIgnored(k);
    RepeatedSlashIgnored(a, b);
    SingleSegmentKey(a);
    AppendSegment(a, b);
    SingleSegmentKey(b);
    KeyCharsConcat("/", a);
    KeyCharsConcat("/" + a, "//");
    KeyCharsConcat("/" + a + "//", b);
    KeyCharsConcat("/" + a + "//" + b, "/");
  }

  /** Every segment of a key is non-empty and slash-free, and the canonical spelling is their join. */
  lemma KeySegmentsCanonical(key: string)
    ensures forall i :: 0 <= i < |KeySegments(key)| ==> KeySegments(key)[i] != "" && '/' !in KeySegments(key)[i]
    ensures KeySegments(Join(KeySegments(key))) == KeySegments(key)
  {
    var segs := KeySegments(key);
    SplitPiecesSlashFree(key);
    forall i | 0 <= i < |segs| ensures segs[i] != "" && '/' !in segs[i] {
      var j :| 0 <= j < |Split(key)| && Split(key)[j] == segs[i];
    }
    if segs != [] {
      SplitJoin(segs);
      NonEmptyOfNonEmpty(segs);
    }
  }

  lemma {:induction false} NonEmptyOfNonEmpty(pieces: seq<string>)
    requires forall i :: 0 <= i < |pieces| ==> pieces[i] != ""
    ensures NonEmpty(pieces) == pieces
    decreases |pieces|
  {
    if pieces != [] {
      NonEmptyOfNonEmpty(pieces[1..]);
    }
  }

  /** Every character of a key that passes the format check is from the key class, except a newline in last position. */
  lemma FormatChars(key: string, c: char)
    requires MatchesKeyFormat(key)
    requires c in key
    ensures KeyChar(c) || c == '\n'
    ensures KeyCharsOnly(key) ==> KeyChar(c)
    ensures c == '\n' ==> key[|key| - 1] == '\n' && forall i :: 0 <= i < |key| - 1 ==> key[i] != '\n'
    ensures forall i :: 0 <= i < |key| - 1 ==> KeyChar(key[i])
  {
    var m :| 0 <= m < |key| && key[m] == c;
    if !KeyCharsOnly(key) && m < |key| - 1 {
      assert key[..|key| - 1][m] == c;
    }
  }

  /**
   * A key that passes the format check yields no segment named `.value`, and
   * only legal segments when it has no trailing newline; it may yield no
   * segment at all ("///").
   */
  lemma ValidKeySegments(key: string)
    requires MatchesKeyFormat(key)
    ensures KeyCharsOnly(key) ==> forall i :: 0 <= i < |KeySegments(key)| ==> IsSegment(KeySegments(key)[i])
    ensures Objects.AvoidsValueName(KeySegments(key))
  {
    var segs := KeySegments(key);
    KeySegmentsCanonical(key);
    forall i | 0 <= i < |segs|
      ensures segs[i] != Objects.ValueName
      ensures KeyCharsOnly(key) ==> IsSegment(segs[i])
    {
      var j :| 0 <= j < |Split(key)| && Split(key)[j] == segs[i];
      SplitChars(key, j);
      forall k | 0 <= k < |segs[i]| ensures KeyChar(segs[i][k]) || segs[i][k] == '\n'
        ensures KeyCharsOnly(key) ==> KeyChar(segs[i][k])
      {
        FormatChars(key, segs[i][k]);
      }
      assert !KeyChar(Objects.ValueName[0]) && Objects.ValueName[0] != '\n';
    }
  }

  /** Every character of a piece of `s` is a character of `s`. */
  lemma {:induction false} SplitChars(s: string, j: int)
    requires 0 <= j < |Split(s)|
    ensures forall k :: 0 <= k < |Split(s)[j]| ==> Split(s)[j][k] in s
    decreases |s|
  {
    if |s| > 0 {
      var rest := Split(s[1..]);
      if s[0] == '/' {
        if j > 0 {
          SplitChars(s[1..], j - 1);
        }
      } else if j == 0 {
        SplitChars(s[1..], 0);
      } else {
        SplitChars(s[1..], j);
      }
      forall k | 0 <= k < |Split(s)[j]| ensures Split(s)[j][k] in s {
        var c := Split(s)[j][k];
        if c != s[0] {
          assert c in s[1..];
        }
      }
    }
  }

  /** A commit hex is itself a legal segment, so it never collides with `.value`. */
  lemma CommitHexIsSegment(commit: CommitHex)
    ensures IsSegment(commit)
    ensures commit != Objects.ValueName
  {
    assert !IsHexDigit(Objects.ValueName[0]);
  }

  /** The store path of a well-formatted key avoids the reserved name throughout. */
  lemma PathAvoidsValueName(commit: CommitHex, key: string)
    requires MatchesKeyFormat(key)
    ensures Objects.AvoidsValueName(PathSegments(commit, key))
  {
    ValidKeySegments(key);
    CommitHexIsSegment(commit);
    var p := PathSegments(commit, key);
    forall i | 0 <= i < |p| ensures p[i] != Objects.ValueName {
      if i > 0 {
        assert p[i] == KeySegments(key)[i - 1];
      }
    }
  }

  /** A key that is one legal segment addresses exactly that segment. */
  lemma SingleSegmentKey(key: string)
    requires IsSegment(key)
    ensures KeyCharsOnly(key) && MatchesKeyFormat(key)
    ensures KeySegments(key) == [key]
  {
    SplitSlashFree(key);
  }

  /**
   * The format check on the two keys whose writes the tests expect to raise
   * (the integer 123 and `?+<23=?><///`), on `foo/bar/baz`, which they store,
   * and on two edge cases of the pattern: the empty key and a key of slashes
   * only.
   */
  lemma FormatExamples()
    ensures VerifyKeyFormat(NotAString) == Fail(InvalidKeyType)
    ensures VerifyKeyFormat(Str("?+<23=?><///")) == Fail(InvalidKeyFormat)
    ensures VerifyKeyFormat(Str("")) == Fail(InvalidKeyFormat)
    ensures VerifyKeyFormat(Str("foo/bar/baz")) == Pass
    ensures VerifyKeyFormat(Str("///")) == Pass && KeySegments("///") == []
  {
    assert !KeyChar("?+<23=?><///"[0]);
    assert Split("///") == ["", "", "", ""];
  }

  /**
   * The pattern's `$` also matches before a final newline, so a legal segment
   * followed by '\n' passes the check and the newline stays in the segment.
   */
  lemma TrailingNewlineAccepted(seg: string)
    requires IsSegment(seg)
    ensures VerifyKeyFormat(Str(seg + "\n")) == Pass
    ensures KeySegments(seg + "\n") == [seg + "\n"]
  {
    var k := seg + "\n";
    assert k[..|k| - 1] == seg;
    assert '/' !in k by {
      assert forall i :: 0 <= i < |k| ==> k[i] == if i < |seg| then seg[i] else '\n';
    }
    SplitSlashFree(k);
  }
}
