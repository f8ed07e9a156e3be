/**
 * The two pure pieces of the service-query handler: the cluster filter
 * read from the request's comma-separated `cluster` field, and the
 * namespace default.
 */
module ServiceQuery {
  import opened Wrappers

  // ---------------------------------------------------------------------
  // Splitting and joining on a separator
  // ---------------------------------------------------------------------

  /**
   * Rust's `str::split` with a one-character pattern: the pieces between
   * separators, in order. There is always at least one piece, so the
   * empty string splits into one empty piece.
   */
  function Split(s: string, sep: char): (r: seq<string>)
    ensures |r| >= 1
    decreases |s|
  {
    if s == [] then [""]
    else
      var rest := Split(s[1..], sep);
      if s[0] == sep then [""] + rest
      else [[s[0]] + rest[0]] + rest[1..]
  }

  /** The pieces of `xs` with `sep` between each two. */
  function Join(xs: seq<string>, sep: char): string
    decreases |xs|
  {
    if xs == [] then ""
    else if |xs| == 1 then xs[0]
    else xs[0] + [sep] + Join(xs[1..], sep)
  }

  /** No piece of a split holds the separator. */
  lemma {:induction false} SplitPieces(s: string, sep: char)
    ensures forall x :: x in Split(s, sep) ==> sep !in x
    decreases |s|
  {
    if s != [] {
      var rest := Split(s[1..], sep);
      SplitPieces(s[1..], sep);
      if s[0] != sep {
        assert forall x :: x in rest[1..] ==> x in rest;
        assert rest[0] in rest;
        var r := [[s[0]] + rest[0]] + rest[1..];
        assert Split(s, sep) == r;
        forall x | x in r ensures sep !in x {
          if x != r[0] { assert x in rest[1..]; }
        }
      }
    }
  }

  /** Joining the pieces of a split gives back the string. */
  lemma {:induction false} JoinSplit(s: string, sep: char)
    ensures Join(Split(s, sep), sep) == s
    decreases |s|
  {
    if s != [] {
      var rest := Split(s[1..], sep);
      JoinSplit(s[1..], sep);
      if s[0] == sep {
        assert Split(s, sep) == [""] + rest;
        assert ([""] + rest)[1..] == rest;
      } else {
        var r := [[s[0]] + rest[0]] + rest[1..];
        assert Split(s, sep) == r;
        if |rest| > 1 {
          assert r[1..] == rest[1..];
          assert Join(rest, sep) == rest[0] + [sep] + Join(rest[1..], sep);
        }
      }
    }
  }

  /** Splitting a join of separator-free pieces gives back the pieces: `Split` is the only such decomposition. */
  lemma {:induction false} SplitJoin(xs: seq<string>, sep: char)
    requires |xs| >= 1
    requires forall x :: x in xs ==> sep !in x
    ensures Split(Join(xs, sep), sep) == xs
    decreases |xs|, |xs[0]|
  {
    if |xs| == 1 {
      SplitNoSep(xs[0], sep);
    } else if xs[0] == [] {
      var tail := xs[1..];
      assert Join(xs, sep) == [sep] + Join(tail, sep);
      assert forall x :: x in tail ==> x in xs;
      SplitJoin(tail, sep);
      assert ([sep] + Join(tail, sep))[1..] == Join(tail, sep);
      assert xs == [""] + tail;
    } else {
      var c := xs[0][0];
      var ys := [xs[0][1..]] + xs[1..];
      assert forall x :: x in ys ==> sep !in x by {
        forall x | x in ys ensures sep !in x {
          if x != xs[0][1..] { assert x in xs; }
          else { assert forall ch :: ch in xs[0][1..] ==> ch in xs[0]; }
        }
      }
      SplitJoin(ys, sep);
      assert ys[1..] == xs[1..];
      assert Join(xs, sep) == [c] + Join(ys, sep) by {
        assert xs[0] == [c] + xs[0][1..];
      }
      assert ([c] + Join(ys, sep))[1..] == Join(ys, sep);
      assert c != sep by { assert c in xs[0]; }
      assert ys[0] == xs[0][1..];
      assert xs[0] == [c] + ys[0];
      assert xs == [xs[0]] + xs[1..];
    }
  }

  /** A string without the separator splits into itself. */
  lemma {:induction false} SplitNoSep(s: string, sep: char)
    requires sep !in s
    ensures Split(s, sep) == [s]
    decreases |s|
  {
    if s != [] {
      assert forall ch :: ch in s[1..] ==> ch in s;
      SplitNoSep(s[1..], sep);
      assert s == [s[0]] + s[1..];
    }
  }

  /** The non-empty strings of `xs`, in order. */
  function NonEmpty(xs: seq<string>): seq<string>
    decreases |xs|
  {
    if xs == [] then []
    else if xs[0] == "" then NonEmpty(xs[1..])
    else [xs[0]] + NonEmpty(xs[1..])
  }

  /** What `NonEmpty` keeps is non-empty and taken from `xs`. */
  lemma NonEmptyKeeps(xs: seq<string>)
    ensures forall x :: x in NonEmpty(xs) ==> x in xs && |x| > 0
  {
    forall x | x in NonEmpty(xs) ensures x in xs && |x| > 0 {
      NonEmptyMembership(xs, x);
    }
  }

  /** A string is kept exactly when it is non-empty and in `xs`. */
  lemma {:induction false} NonEmptyMembership(xs: seq<string>, x: string)
    ensures x in NonEmpty(xs) <==> x in xs && x != ""
    decreases |xs|
  {
    if xs != [] {
      NonEmptyMembership(xs[1..], x);
      assert xs == [xs[0]] + xs[1..];
    }
  }

  // ---------------------------------------------------------------------
  // parse_clusters and the namespace default
  // ---------------------------------------------------------------------

  /** `parse_clusters`: no filter without a `cluster` field; otherwise its non-empty comma-separated names. */
  function ParseClusters(cluster: Option<string>): (r: seq<string>)
    ensures cluster.None? ==> r == []
    ensures forall x :: x in r ==> |x| > 0 && ',' !in x
  {
    match cluster
    case None => []
    case Some(s) =>
      SplitPieces(s, ',');
      NonEmptyKeeps(Split(s, ','));
      NonEmpty(Split(s, ','))
  }

  /**
   * The input with its empty segments removed, defined on characters: a
   * comma is kept only when a name came before it and another one follows,
   * and a run of commas counts once. `started` says a name has been read,
   * `pending` that a comma has been read after it.
   */
  function Squeeze(s: string, started: bool, pending: bool): string
    decreases |s|
  {
    if s == [] then ""
    else if s[0] == ',' then Squeeze(s[1..], started, started)
    else (if pending then "," else "") + [s[0]] + Squeeze(s[1..], true, false)
  }

  /** `Join` of one piece in front of others. */
  lemma JoinCons(x: string, ys: seq<string>, sep: char)
    ensures Join([x] + ys, sep) == x + (if ys == [] then "" else [sep] + Join(ys, sep))
  {
    if ys != [] {
      assert ([x] + ys)[1..] == ys;
    }
  }

  /** `Squeeze` from a reading state, stated through the split: the invariant behind `ParseClustersJoin`. */
  ghost predicate SqueezeAgrees(s: string, started: bool, pending: bool) {
    var p := NonEmpty(Split(s, ','));
    Squeeze(s, started, pending) ==
      if p == [] then ""
      else (if pending || (started && Split(s, ',')[0] == "") then "," else "") + Join(p, ',')
  }

  lemma {:induction false} SqueezeNonEmpty(s: string, started: bool, pending: bool)
    requires pending ==> started
    ensures SqueezeAgrees(s, started, pending)
    decreases |s|
  {
    if s != [] {
      if s[0] == ',' {
        SqueezeNonEmpty(s[1..], started, started);
        SqueezeComma(s, started, pending);
      } else {
        SqueezeNonEmpty(s[1..], true, false);
        SqueezeName(s, started, pending);
      }
    }
  }

  /** A leading comma: it only records that a separator is pending. */
  lemma SqueezeComma(s: string, started: bool, pending: bool)
    requires s != [] && s[0] == ','
    requires pending ==> started
    requires SqueezeAgrees(s[1..], started, started)
    ensures SqueezeAgrees(s, started, pending)
  {
    var rest := Split(s[1..], ',');
    assert Split(s, ',') == [""] + rest;
    assert ([""] + rest)[1..] == rest;
  }

  /** A leading name character: it starts or extends the first name. */
  lemma SqueezeName(s: string, started: bool, pending: bool)
    requires s != [] && s[0] != ','
    requires SqueezeAgrees(s[1..], true, false)
    ensures SqueezeAgrees(s, started, pending)
  {
    var rest := Split(s[1..], ',');
    var h, t := rest[0], rest[1..];
    assert rest == [h] + t;
    var x := [s[0]] + h;
    assert Split(s, ',') == [x] + t;
    SqueezeRest(s[1..], h, t);
    SqueezeNameText(s, started, pending, h, TailText(t));
    HeadJoin(x, t);
  }

  /** The character-level reading of a leading name character. */
  lemma SqueezeNameText(s: string, started: bool, pending: bool, h: string, tail: string)
    requires s != [] && s[0] != ','
    requires Squeeze(s[1..], true, false) == h + tail
    ensures Squeeze(s, started, pending) == (if pending then "," else "") + (([s[0]] + h) + tail)
  {
    assert [s[0]] + (h + tail) == ([s[0]] + h) + tail;
  }

  /** What follows the first piece once joined: nothing, or a comma and the other names. */
  function TailText(t: seq<string>): string {
    if NonEmpty(t) == [] then "" else "," + Join(NonEmpty(t), ',')
  }

  /** A non-empty first piece leads the join of the names. */
  lemma HeadJoin(x: string, t: seq<string>)
    requires x != ""
    ensures NonEmpty([x] + t) != []
    ensures Join(NonEmpty([x] + t), ',') == x + TailText(t)
  {
    NonEmptyCons(x, t);
    JoinCons(x, NonEmpty(t), ',');
  }

  /** After a name character, the rest reads as the first piece's remainder, then the other names. */
  lemma SqueezeRest(s: string, h: string, t: seq<string>)
    requires Split(s, ',') == [h] + t
    requires SqueezeAgrees(s, true, false)
    ensures Squeeze(s, true, false) == h + TailText(t)
  {
    NonEmptyCons(h, t);
    if h != "" {
      JoinCons(h, NonEmpty(t), ',');
    }
  }

  /** `NonEmpty` of one piece in front of others. */
  lemma NonEmptyCons(x: string, ys: seq<string>)
    ensures NonEmpty([x] + ys) == (if x == "" then [] else [x]) + NonEmpty(ys)
  {
    assert ([x] + ys)[1..] == ys;
  }

  /**
   * The names are exactly the non-empty comma-separated segments, in
   * order: joined with commas they give the input with its empty
   * segments removed.
   */
  lemma ParseClustersJoin(s: string)
    ensures Join(ParseClusters(Some(s)), ',') == Squeeze(s, false, false)
  {
    SqueezeNonEmpty(s, false, false);
  }

  /** A field with no empty segment is parsed back into the names it was joined from. */
  lemma ParseClustersRoundTrip(names: seq<string>)
    requires forall x :: x in names ==> |x| > 0 && ',' !in x
    ensures ParseClusters(Some(Join(names, ','))) == names
  {
    if names == [] {
      assert Split("", ',') == [""];
      assert NonEmpty([""]) == [];
    } else {
      SplitJoin(names, ',');
      NonEmptyAll(names);
    }
  }

  /** `NonEmpty` keeps a list of non-empty strings as it is. */
  lemma {:induction false} NonEmptyAll(xs: seq<string>)
    requires forall x :: x in xs ==> |x| > 0
    ensures NonEmpty(xs) == xs
    decreases |xs|
  {
    if xs != [] {
      assert forall x :: x in xs[1..] ==> x in xs;
      NonEmptyAll(xs[1..]);
      assert xs == [xs[0]] + xs[1..];
    }
  }

  /** The namespace a query uses when the request names none. */
  const DefaultNamespace: string := "public"

  /** The request's namespace, or `"public"` when it has none. */
  function Namespace(namespace: Option<string>): (r: string)
    ensures namespace.Some? ==> r == namespace.value
    ensures namespace.None? ==> r == DefaultNamespace
  {
    if namespace.Some? then namespace.value else DefaultNamespace
  }
}
