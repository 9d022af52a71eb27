/**
  The designation-to-redirect rule of the `/search` handler of the
  mpc-lookup service: strip every "2011 " from the designation and append
  what is left, as it is, to the Minor Planet Center object lookup URL.
 */
module External {
  import opened PyStr

  datatype Option<T> = None | Some(value: T)

  /** The text the handler deletes from every designation. */
  const DesignationPrepend: string := "2011 "

  /** The fixed part of the redirect URL, up to and including `object_id=`. */
  const MpcObjectUrl: string := "https://www.minorplanetcenter.net/db_search/" + "show_object?object_id="

  /**
    The designation with every "2011 " removed in one left-to-right pass
    (`designation.replace("2011 ", "")`).
   */
  function StripDesignation(designation: string): (fd: string)
    ensures |fd| <= |designation|
    ensures IsSubsequence(fd, designation)
  {
    RemoveAllIsSubsequence(designation, DesignationPrepend);
    RemoveAll(designation, DesignationPrepend)
  }

  /** The redirect target the handler returns for a designation. */
  function SearchUrl(designation: string): (url: string)
    ensures |url| >= |MpcObjectUrl| && url[..|MpcObjectUrl|] == MpcObjectUrl
    ensures ObjectId(url) == Some(StripDesignation(designation))
  {
    var url := MpcObjectUrl + StripDesignation(designation);
    assert url[..|MpcObjectUrl|] == MpcObjectUrl;
    url
  }

  /**
    The text after the lookup prefix of a URL of the shape the handler
    builds, or None when the URL does not start with that prefix. This is
    not a query-string parser.
   */
  function ObjectId(url: string): (id: Option<string>)
    ensures id.Some? <==> |url| >= |MpcObjectUrl| && url[..|MpcObjectUrl|] == MpcObjectUrl
    ensures id.Some? ==> url == MpcObjectUrl + id.value
  {
    if |url| >= |MpcObjectUrl| && url[..|MpcObjectUrl|] == MpcObjectUrl then
      assert url == url[..|MpcObjectUrl|] + url[|MpcObjectUrl|..];
      Some(url[|MpcObjectUrl|..])
    else None
  }

  /** The redirect always points at this exact lookup URL, even for "". */
  lemma SearchUrlStartsWithLookup(designation: string)
    ensures SearchUrl(designation)[..66] == "https://www.minorplanetcenter.net/db_search/show_object?object_id="
    ensures SearchUrl("") == "https://www.minorplanetcenter.net/db_search/show_object?object_id="
  {
    assert |MpcObjectUrl| == 66;
    assert StripDesignation("") == "";
  }

  /**
    The URL and the stripped designation determine each other: two
    designations redirect to the same place exactly when they strip to the
    same value.
   */
  lemma SearchUrlInjective(a: string, b: string)
    ensures SearchUrl(a) == SearchUrl(b) <==> StripDesignation(a) == StripDesignation(b)
  {
    if SearchUrl(a) == SearchUrl(b) {
      assert ObjectId(SearchUrl(a)) == ObjectId(SearchUrl(b));
    }
  }

  /**
    Each "2011 " removed shortens the designation by five characters: the
    stripped value is never longer and the difference is a multiple of five.
   */
  lemma StrippedLength(designation: string)
    ensures |StripDesignation(designation)| == |designation| - 5 * MatchCount(designation, DesignationPrepend)
    ensures (|designation| - |StripDesignation(designation)|) % 5 == 0
  {
    RemoveAllLength(designation, DesignationPrepend);
  }

  /** The designation comes through unchanged exactly when it holds no "2011 ". */
  lemma StripUnchangedIff(designation: string)
    ensures StripDesignation(designation) == designation <==> !Occurs(designation, DesignationPrepend)
  {
    RemoveAllUnchangedIff(designation, DesignationPrepend);
  }

  /**
    A "2011 " is removed wherever it stands, not only at the front: when no
    "2011 " starts inside `before`, the designation `before + "2011 " + after`
    strips to `before` followed by the stripped `after`.
   */
  lemma StripRemovesAnywhere(before: string, after: string)
    requires forall j :: 0 <= j < |before| ==> !MatchAt(before + DesignationPrepend + after, DesignationPrepend, j)
    ensures StripDesignation(before + DesignationPrepend + after) == before + StripDesignation(after)
  {
    RemoveAfterPrefix(before, DesignationPrepend, after);
  }

  /** The example request of the handler's documentation. */
  lemma StripDocumentedExample()
    ensures StripDesignation("2011 1001 T-2") == "1001 T-2"
    ensures SearchUrl("2011 1001 T-2") == MpcObjectUrl + "1001 T-2"
  {
    assert "" + DesignationPrepend + "1001 T-2" == "2011 1001 T-2";
    StripRemovesAnywhere("", "1001 T-2");
    forall i | 0 <= i <= |"1001 T-2"| - |DesignationPrepend|
      ensures !MatchAt("1001 T-2", DesignationPrepend, i)
    {
      NoMatchAtMismatch("1001 T-2", DesignationPrepend, i, 0);
    }
    StripUnchangedIff("1001 T-2");
  }

  /** A "2011 " in the middle goes as well. */
  lemma StripInnerExample()
    ensures StripDesignation("X2011 Y") == "XY"
  {
    NoMatchAtMismatch("X2011 Y", DesignationPrepend, 0, 0);
    assert "X" + DesignationPrepend + "Y" == "X2011 Y";
    StripRemovesAnywhere("X", "Y");
    assert StripDesignation("Y") == "Y";
  }

  /** A designation without "2011 " is left alone. */
  lemma StripAbsentExample()
    ensures StripDesignation("1998 QE2") == "1998 QE2"
  {
    forall i | 0 <= i <= |"1998 QE2"| - |DesignationPrepend|
      ensures !MatchAt("1998 QE2", DesignationPrepend, i)
    {
      NoMatchAtMismatch("1998 QE2", DesignationPrepend, i, 0);
    }
    StripUnchangedIff("1998 QE2");
  }

  /**
    The strip is one pass and is not repeated: pieces that meet across a
    removed "2011 " may form a new "2011 ", which stays in the result, so
    stripping the result again changes it further.
   */
  lemma StripIsSinglePass()
    ensures StripDesignation("202011 11 ") == DesignationPrepend
    ensures Occurs(StripDesignation("202011 11 "), DesignationPrepend)
    ensures StripDesignation(StripDesignation("202011 11 ")) == ""
  {
    NoMatchAtMismatch("202011 11 ", DesignationPrepend, 0, 2);
    NoMatchAtMismatch("202011 11 ", DesignationPrepend, 1, 0);
    StripRemovesAnywhere("20", "11 ");
    assert "20" + DesignationPrepend + "11 " == "202011 11 ";
    assert StripDesignation("11 ") == "11 ";
    StripPrependAlone();
  }

  /** "2011 " alone is a match of itself and strips to "". */
  lemma StripPrependAlone()
    ensures Occurs(DesignationPrepend, DesignationPrepend)
    ensures StripDesignation(DesignationPrepend) == ""
  {
    MatchAtIff(DesignationPrepend, DesignationPrepend, 0);
    assert MatchAt(DesignationPrepend, DesignationPrepend, 0);
    StripRemovesAnywhere("", "");
    assert "" + DesignationPrepend + "" == DesignationPrepend;
  }
}
