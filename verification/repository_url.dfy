/** Composite repository URLs of the form <base-url>/repositories/<repo-id>,
    split the way java.lang.String.split does it: leftmost non-overlapping
    occurrences of a literal separator, one piece when there is none, and
    trailing empty pieces dropped otherwise. */
module RepositoryUrl {

  import opened Wrappers

  /** The path segment of the Sesame HTTP protocol (Protocol.REPOSITORIES). */
  const Repositories: string := "repositories"

  /** The separator the composite URL is split on. */
  const Separator: string := "/" + Repositories + "/"

  /** Message of the InvalidParameterException thrown for a malformed URL. */
  const ExpectedForm: string :=
    "The repository URL should be in the form: <base-url>/" + Repositories + "/<repo-id>"

  /** Outcome of parseRepositoryURL: the two parts, or the exception it throws. */
  datatype UrlParse = Parts(baseUrl: string, repoId: string) | InvalidParameter(message: string)

  predicate OccursAt(s: string, sep: string, i: nat)
  {
    i + |sep| <= |s| && s[i..i + |sep|] == sep
  }

  /** Leftmost occurrence of `sep` in `s` at or after index `from`. */
  function FindFrom(s: string, sep: string, from: nat): (r: Option<nat>)
    decreases |s| - from
    ensures r.Some? ==> from <= r.value && OccursAt(s, sep, r.value)
    ensures r.Some? ==> forall j :: from <= j < r.value ==> !OccursAt(s, sep, j)
    ensures r.None? ==> forall j :: from <= j ==> !OccursAt(s, sep, j)
  {
    if from + |sep| > |s| then None
    else if OccursAt(s, sep, from) then Some(from)
    else FindFrom(s, sep, from + 1)
  }

  /** Concatenation of `pieces` with `sep` between neighbours. */
  function Join(pieces: seq<string>, sep: string): string
    requires |pieces| > 0
  {
    if |pieces| == 1 then pieces[0] else pieces[0] + sep + Join(pieces[1..], sep)
  }

  /** The pieces between successive leftmost non-overlapping occurrences of
      `sep`, before any trailing empty piece is dropped. */
  function Pieces(s: string, sep: string): (r: seq<string>)
    requires |sep| > 0
    decreases |s|
    ensures |r| > 0
    ensures FindFrom(s, sep, 0).None? ==> r == [s]
    ensures FindFrom(s, sep, 0).Some? ==> |r| >= 2
  {
    match FindFrom(s, sep, 0)
    case None => [s]
    case Some(i) => [s[..i]] + Pieces(s[i + |sep|..], sep)
  }

  /** Java's removal of trailing empty strings (split with limit 0). */
  function DropTrailingEmpty(pieces: seq<string>): (r: seq<string>)
    ensures r <= pieces
    ensures r == [] || r[|r| - 1] != ""
    ensures forall k :: |r| <= k < |pieces| ==> pieces[k] == ""
  {
    if pieces == [] then []
    else if pieces[|pieces| - 1] == "" then DropTrailingEmpty(pieces[..|pieces| - 1])
    else pieces
  }

  /** java.lang.String.split(sep) for a separator without regular-expression
      metacharacters: the whole string when the separator does not occur;
      otherwise the raw pieces up to the last non-empty one. No part contains
      the separator. */
  function Split(s: string, sep: string): (r: seq<string>)
    requires |sep| > 0
    ensures FindFrom(s, sep, 0).None? ==> r == [s]
    ensures FindFrom(s, sep, 0).Some? ==>
      && r <= Pieces(s, sep)
      && (forall k :: |r| <= k < |Pieces(s, sep)| ==> Pieces(s, sep)[k] == "")
      && (r == [] || r[|r| - 1] != "")
    ensures forall k, j :: 0 <= k < |r| ==> !OccursAt(r[k], sep, j)
  {
    PiecesAvoidSeparatorAll(s, sep);
    if FindFrom(s, sep, 0).None? then [s] else DropTrailingEmpty(Pieces(s, sep))
  }

  /** parseRepositoryURL: accept exactly when the split has two parts. */
  function ParseRepositoryUrl(url: string): (r: UrlParse)
    ensures r.InvalidParameter? ==> r.message == ExpectedForm
    ensures r.Parts? ==> r.repoId != ""
  {
    var parts := Split(url, Separator);
    if |parts| != 2 then InvalidParameter(ExpectedForm) else Parts(parts[0], parts[1])
  }

  // ---------------------------------------------------------------------
  // Properties of the splitter

  /** Splitting loses nothing: the raw pieces joined back give the input. */
  lemma {:induction false} JoinPieces(s: string, sep: string)
    requires |sep| > 0
    ensures Join(Pieces(s, sep), sep) == s
    decreases |s|
  {
    match FindFrom(s, sep, 0)
    case None =>
    case Some(i) =>
      var rest := s[i + |sep|..];
      JoinPieces(rest, sep);
      assert Pieces(s, sep) == [s[..i]] + Pieces(rest, sep);
      assert s[i..i + |sep|] == sep;
      assert s == s[..i] + sep + rest;
  }

  /** An occurrence inside a prefix is an occurrence in the whole string. */
  lemma OccursInPrefix(s: string, sep: string, i: nat, j: nat)
    requires i <= |s|
    ensures OccursAt(s[..i], sep, j) ==> OccursAt(s, sep, j)
  {
    if j + |sep| <= i {
      assert s[..i][j..j + |sep|] == s[j..j + |sep|];
    }
  }

  /** No piece contains the separator. */
  lemma {:induction false} PiecesAvoidSeparator(s: string, sep: string, k: nat, j: nat)
    requires |sep| > 0
    requires k < |Pieces(s, sep)|
    ensures !OccursAt(Pieces(s, sep)[k], sep, j)
    decreases |s|
  {
    match FindFrom(s, sep, 0)
    case None =>
    case Some(i) =>
      assert Pieces(s, sep) == [s[..i]] + Pieces(s[i + |sep|..], sep);
      if k > 0 {
        PiecesAvoidSeparator(s[i + |sep|..], sep, k - 1, j);
      } else {
        OccursInPrefix(s, sep, i, j);
      }
  }

  /** No raw piece of any split contains the separator. */
  lemma PiecesAvoidSeparatorAll(s: string, sep: string)
    requires |sep| > 0
    ensures forall k, j :: 0 <= k < |Pieces(s, sep)| ==> !OccursAt(Pieces(s, sep)[k], sep, j)
  {
    forall k, j | 0 <= k < |Pieces(s, sep)|
      ensures !OccursAt(Pieces(s, sep)[k], sep, j)
    {
      PiecesAvoidSeparator(s, sep, k, j);
    }
  }

  /** `r` is made of zero or more copies of the separator. */
  ghost predicate SeparatorsOnly(r: string)
  {
    exists n: nat :: r == Repeat(Separator, n)
  }

  function Repeat(s: string, n: nat): (r: string)
    ensures |r| == n * |s|
  {
    if n == 0 then "" else s + Repeat(s, n - 1)
  }

  /** An all-empty tail of pieces joins back to a run of separators. */
  lemma {:induction false} JoinEmpties(pieces: seq<string>)
    requires |pieces| > 0
    requires forall k :: 0 <= k < |pieces| ==> pieces[k] == ""
    ensures Join(pieces, Separator) == Repeat(Separator, |pieces| - 1)
  {
    if |pieces| > 1 {
      JoinEmpties(pieces[1..]);
    }
  }

  /** The raw pieces of an accepted URL: the two parts, then empty pieces only. */
  lemma AcceptedPieces(url: string)
    requires ParseRepositoryUrl(url).Parts?
    ensures var p := ParseRepositoryUrl(url);
      var raw := Pieces(url, Separator);
      && FindFrom(url, Separator, 0) == Some(|p.baseUrl|)
      && |raw| >= 2 && raw[0] == p.baseUrl && raw[1] == p.repoId
      && forall k :: 2 <= k < |raw| ==> raw[k] == ""
  {
    var raw := Pieces(url, Separator);
    var i := FindFrom(url, Separator, 0).value;
    assert raw == [url[..i]] + Pieces(url[i + |Separator|..], Separator);
    assert DropTrailingEmpty(raw) <= raw;
  }

  /** Two pieces followed by empty ones join to the two around one separator,
      then a run of separators. */
  lemma JoinTwoThenEmpties(raw: seq<string>)
    requires |raw| >= 2
    requires forall k :: 2 <= k < |raw| ==> raw[k] == ""
    ensures Join(raw, Separator) == raw[0] + Separator + raw[1] + Repeat(Separator, |raw| - 2)
  {
    var rest := raw[1..];
    assert Join(raw, Separator) == raw[0] + Separator + Join(rest, Separator);
    if |raw| == 2 {
      assert Join(rest, Separator) == raw[1];
    } else {
      var tail := rest[1..];
      JoinEmpties(tail);
      var run := Repeat(Separator, |tail| - 1);
      assert Join(rest, Separator) == raw[1] + Separator + run;
      assert Repeat(Separator, |raw| - 2) == Separator + run;
      ConcatAssoc(raw[1], Separator, run);
      ConcatAssoc(raw[0] + Separator, raw[1], Separator + run);
    }
  }

  /** Concatenation is associative. */
  lemma ConcatAssoc<X>(a: seq<X>, b: seq<X>, c: seq<X>)
    ensures a + b + c == a + (b + c)
  {
  }

  /** What an accepted URL looks like: the base ends at the leftmost
      separator, the id is non-empty and free of the separator, and all that
      may follow the id is a run of separators (whose empty pieces Java drops). */
  lemma AcceptedShape(url: string)
    requires ParseRepositoryUrl(url).Parts?
    ensures var p := ParseRepositoryUrl(url);
      && FindFrom(url, Separator, 0) == Some(|p.baseUrl|)
      && p.repoId != ""
      && (forall j :: !OccursAt(p.repoId, Separator, j))
      && |p.baseUrl + Separator + p.repoId| <= |url|
      && url[..|p.baseUrl + Separator + p.repoId|] == p.baseUrl + Separator + p.repoId
      && SeparatorsOnly(url[|p.baseUrl + Separator + p.repoId|..])
  {
    var p := ParseRepositoryUrl(url);
    var raw := Pieces(url, Separator);
    AcceptedPieces(url);
    forall j ensures !OccursAt(p.repoId, Separator, j) {
      PiecesAvoidSeparator(url, Separator, 1, j);
    }
    JoinPieces(url, Separator);
    JoinTwoThenEmpties(raw);
    var head := p.baseUrl + Separator + p.repoId;
    assert url == head + Repeat(Separator, |raw| - 2);
    assert url[|head|..] == Repeat(Separator, |raw| - 2);
  }

  /** Round trip: a base and a non-empty id joined by the separator parse
      back to themselves, provided the separator occurs only where it was put. */
  lemma RoundTrip(base: string, id: string)
    requires id != ""
    requires forall j :: OccursAt(base + Separator + id, Separator, j) ==> j == |base|
    ensures ParseRepositoryUrl(base + Separator + id) == Parts(base, id)
  {
    var url := base + Separator + id;
    assert url[|base|..|base| + |Separator|] == Separator;
    assert OccursAt(url, Separator, |base|);
    var found := FindFrom(url, Separator, 0);
    assert found == Some(|base|);
    var rest := url[|base| + |Separator|..];
    assert rest == id;
    assert url[..|base|] == base;
    forall j | FindFrom(id, Separator, 0) == Some(j) ensures false {
      assert id[j..j + |Separator|] == url[|base| + |Separator| + j..|base| + |Separator| + j + |Separator|];
      assert OccursAt(url, Separator, |base| + |Separator| + j);
    }
    assert Pieces(url, Separator) == [base] + Pieces(id, Separator);
    assert Pieces(url, Separator) == [base, id];
  }

  /** A URL without the separator is rejected. */
  lemma RejectedWithoutSeparator(url: string)
    requires forall j :: !OccursAt(url, Separator, j)
    ensures ParseRepositoryUrl(url) == InvalidParameter(ExpectedForm)
  {
    assert FindFrom(url, Separator, 0).None?;
  }

  // ---------------------------------------------------------------------
  // The URL shapes the source's callers meet

  /** Every occurrence of the separator starts with a slash. */
  lemma SlashStartsSeparator(s: string, j: nat)
    ensures OccursAt(s, Separator, j) ==> s[j] == '/'
  {
    if j + |Separator| <= |s| {
      assert s[j..j + |Separator|][0] == s[j];
    }
  }

  /** A slash-free piece in front of the separator is the first piece. */
  lemma LeadingPiece(x: string, rest: string)
    requires '/' !in x
    ensures Pieces(x + Separator + rest, Separator) == [x] + Pieces(rest, Separator)
  {
    var s := x + Separator + rest;
    assert s[|x|..|x| + |Separator|] == Separator;
    forall j: nat | j < |x| ensures !OccursAt(s, Separator, j) {
      SlashStartsSeparator(s, j);
      assert s[j] == x[j];
    }
    assert OccursAt(s, Separator, |x|);
    assert FindFrom(s, Separator, 0) == Some(|x|);
    assert s[..|x|] == x;
    assert s[|x| + |Separator|..] == rest;
  }

  /** A slash-free string is a single piece. */
  lemma SlashFreePiece(x: string)
    requires '/' !in x
    ensures FindFrom(x, Separator, 0).None?
    ensures Pieces(x, Separator) == [x]
  {
    forall j: nat ensures !OccursAt(x, Separator, j) {
      SlashStartsSeparator(x, j);
    }
  }

  lemma ParseExampleAccepted()
    ensures ParseRepositoryUrl("base/repositories/myRepo") == Parts("base", "myRepo")
  {
    assert "base/repositories/myRepo" == "base" + Separator + "myRepo";
    LeadingPiece("base", "myRepo");
    SlashFreePiece("myRepo");
  }

  /** Three slash-free pieces, the last non-empty: three parts, rejected. */
  lemma ThreePiecesRejected(x: string, y: string, z: string)
    requires '/' !in x && '/' !in y && '/' !in z && z != ""
    ensures ParseRepositoryUrl(x + Separator + (y + Separator + z)) == InvalidParameter(ExpectedForm)
  {
    LeadingPiece(x, y + Separator + z);
    LeadingPiece(y, z);
    SlashFreePiece(z);
    assert Pieces(x + Separator + (y + Separator + z), Separator) == [x, y, z];
  }

  /** Two slash-free pieces and a trailing separator: the empty third piece
      is dropped and the first two are the parts. */
  lemma TrailingSeparatorAccepted(x: string, y: string)
    requires '/' !in x && '/' !in y && y != ""
    ensures ParseRepositoryUrl(x + Separator + (y + Separator + "")) == Parts(x, y)
  {
    LeadingPiece(x, y + Separator + "");
    LeadingPiece(y, "");
    SlashFreePiece("");
    assert Pieces(x + Separator + (y + Separator + ""), Separator) == [x, y, ""];
    assert DropTrailingEmpty([x, y, ""]) == [x, y];
  }

  lemma ParseExampleTwoSeparators()
    ensures ParseRepositoryUrl("base/repositories/a/repositories/b") == InvalidParameter(ExpectedForm)
  {
    assert Separator == "/repositories/";
    assert "base/repositories/a/repositories/b" == "base" + Separator + ("a" + Separator + "b");
    ThreePiecesRejected("base", "a", "b");
  }

  /** A trailing separator after the id only adds an empty piece, which Java
      drops, so the URL is still accepted. */
  lemma ParseExampleTrailingSeparator()
    ensures ParseRepositoryUrl("base/repositories/a/repositories/") == Parts("base", "a")
  {
    assert "base/repositories/a/repositories/" == "base" + Separator + ("a" + Separator + "");
    TrailingSeparatorAccepted("base", "a");
  }

  /** The leading empty piece is kept, so an empty base is accepted. */
  lemma ParseExampleEmptyBase()
    ensures ParseRepositoryUrl("/repositories/x") == Parts("", "x")
  {
    assert "/repositories/x" == "" + Separator + "x";
    LeadingPiece("", "x");
    SlashFreePiece("x");
  }

  /** An empty id is a trailing empty piece: dropped, leaving one part. */
  lemma ParseExampleEmptyId()
    ensures ParseRepositoryUrl("base/repositories/") == InvalidParameter(ExpectedForm)
  {
    assert "base/repositories/" == "base" + Separator + "";
    LeadingPiece("base", "");
    SlashFreePiece("");
  }

  lemma ParseExampleNoSeparator()
    ensures ParseRepositoryUrl("base/myRepo") == InvalidParameter(ExpectedForm)
  {
    forall j ensures !OccursAt("base/myRepo", Separator, j) {
    }
    RejectedWithoutSeparator("base/myRepo");
  }
}
