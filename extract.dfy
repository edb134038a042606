/** Role-filtered content extraction (`extract_ng_star_inserted_content` in
    monitor.py).

    The parsed page is a sequence of elements in document order. For each
    element the model keeps what the extraction looks at: whether it carries
    the class `ng-star-inserted`, the text of its first descendant with class
    `role` (None when there is none) and its serialised markup. */
module Extract {
  import opened Wrappers
  import Roles
  import Strings

  datatype Element = Element(ngStarInserted: bool, role: Option<string>, markup: string)

  type Document = seq<Element>

  /** An event card the monitor cares about. */
  predicate IsRoleEvent(e: Element) {
    e.ngStarInserted && e.role.Some? && Roles.IsTrackedRole(e.role.value)
  }

  /** The markup of the retained elements, in document order. */
  function RetainedMarkup(doc: Document): (r: seq<string>)
    ensures |r| <= |doc|
    decreases |doc|
  {
    if doc == [] then []
    else
      var last := doc[|doc| - 1];
      RetainedMarkup(doc[..|doc| - 1]) + (if IsRoleEvent(last) then [last.markup] else [])
  }

  /** The extracted content: retained markup joined by newlines. */
  function Extracted(doc: Document): string {
    Strings.Join(RetainedMarkup(doc), "\n")
  }

  /** The source's loop: append each retained element's markup, then join. */
  method ExtractNgStarInsertedContent(doc: Document) returns (content: string)
    ensures content == Extracted(doc)
  {
    var filteredEvents: seq<string> := [];
    for i := 0 to |doc|
      invariant filteredEvents == RetainedMarkup(doc[..i])
    {
      assert doc[..i + 1][..i] == doc[..i];
      if IsRoleEvent(doc[i]) {
        filteredEvents := filteredEvents + [doc[i].markup];
      }
    }
    assert doc[..|doc|] == doc;
    content := Strings.Join(filteredEvents, "\n");
  }

  /** Extraction works element by element: the retained markup of two pieces of
      a page is the retained markup of each, in order. */
  lemma {:induction false} RetainedMarkupDistributes(a: Document, b: Document)
    ensures RetainedMarkup(a + b) == RetainedMarkup(a) + RetainedMarkup(b)
    decreases |b|
  {
    if b == [] {
      assert a + b == a;
    } else {
      var n := |b| - 1;
      assert (a + b)[..|a + b| - 1] == a + b[..n];
      RetainedMarkupDistributes(a, b[..n]);
    }
  }

  /** A single element contributes its markup exactly when it is a role event. */
  lemma RetainedMarkupOfOne(e: Element)
    ensures RetainedMarkup([e]) == if IsRoleEvent(e) then [e.markup] else []
  {
    assert [e][..0] == [];
  }

  /** A markup string is extracted exactly when some role event of the page
      serialises to it. */
  lemma {:induction false} RetainedMarkupMembers(doc: Document, m: string)
    ensures m in RetainedMarkup(doc) <==> exists i :: 0 <= i < |doc| && IsRoleEvent(doc[i]) && doc[i].markup == m
    decreases |doc|
  {
    if doc != [] {
      var n := |doc| - 1;
      RetainedMarkupMembers(doc[..n], m);
      if exists i :: 0 <= i < |doc| && IsRoleEvent(doc[i]) && doc[i].markup == m {
        var i :| 0 <= i < |doc| && IsRoleEvent(doc[i]) && doc[i].markup == m;
        if i < n {
          assert doc[..n][i] == doc[i];
        }
      }
      if m in RetainedMarkup(doc[..n]) {
        var i :| 0 <= i < n && IsRoleEvent(doc[..n][i]) && doc[..n][i].markup == m;
        assert doc[i] == doc[..n][i];
      }
    }
  }

  /** A page without a role event, the empty page included, extracts to "". */
  lemma {:induction false} ExtractedWithoutEvents(doc: Document)
    requires forall i :: 0 <= i < |doc| ==> !IsRoleEvent(doc[i])
    ensures Extracted(doc) == ""
  {
    if RetainedMarkup(doc) != [] {
      var m := RetainedMarkup(doc)[0];
      RetainedMarkupMembers(doc, m);
    }
  }

  /** Markup churn outside the role events is invisible: adding or removing an
      element that is not a role event leaves the extraction unchanged. */
  lemma ExtractionIgnoresOtherElements(a: Document, e: Element, b: Document)
    requires !IsRoleEvent(e)
    ensures Extracted(a + [e] + b) == Extracted(a + b)
  {
    RetainedMarkupDistributes(a + [e], b);
    RetainedMarkupDistributes(a, [e]);
    RetainedMarkupOfOne(e);
    RetainedMarkupDistributes(a, b);
    assert RetainedMarkup(a + [e] + b) == RetainedMarkup(a + b);
  }

  /** When every retained card serialises to one non-empty line, each card is one
      line of the extraction, which is what the diff compares. */
  lemma LinesOfExtracted(doc: Document)
    requires forall i :: 0 <= i < |doc| && IsRoleEvent(doc[i]) ==>
               doc[i].markup != "" && Strings.SingleLine(doc[i].markup)
    ensures Strings.Lines(Extracted(doc)) == RetainedMarkup(doc)
  {
    var parts := RetainedMarkup(doc);
    forall k | 0 <= k < |parts|
      ensures parts[k] != "" && Strings.SingleLine(parts[k])
    {
      assert parts[k] in parts;
      RetainedMarkupMembers(doc, parts[k]);
    }
    Strings.LinesOfJoin(parts);
  }
}
