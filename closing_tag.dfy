/** The content rules `File::save` applies to every resource it reads before
    caching it: the opening-tag check and the closing-tag normalisation. */
module ClosingTag {
  import opened Wrappers
  import opened PhpStrings

  /** What `save` appends when the content does not end cleanly on a closing tag. */
  const Appendix: string := "\n?>\n"

  /** `strpos($resource, '<?') !== false`. */
  predicate HasOpeningTag(s: string) {
    StrPos(s, "<?").Some?
  }

  /** The closing-tag condition: no `?>` at all, or something `trim` keeps
      after the last one. */
  predicate NeedsClosingTag(s: string) {
    match StrRPos(s, "?>")
    case None => true
    case Some(p) => Trim(s[p + 2..]) != ""
  }

  /** The normalisation step: append the appendix when the condition holds. */
  function CloseTag(s: string): string {
    if NeedsClosingTag(s) then s + Appendix else s
  }

  /** `s` contains `?>` and only `trim` whitespace follows its last occurrence. */
  ghost predicate EndsCleanly(s: string) {
    exists p: nat ::
      && OccursAt(s, "?>", p)
      && (forall j: nat :: p < j ==> !OccursAt(s, "?>", j))
      && AllTrimSpace(s[p + 2..])
  }

  /** The code's condition is exactly "does not end cleanly". */
  lemma NeedsClosingTagIff(s: string)
    ensures NeedsClosingTag(s) <==> !EndsCleanly(s)
  {
    if EndsCleanly(s) {
      CleanIsLast(s);
    } else {
      NotCleanNeedsTag(s);
    }
  }

  lemma CleanIsLast(s: string)
    requires EndsCleanly(s)
    ensures !NeedsClosingTag(s)
  {
    var q: nat :| OccursAt(s, "?>", q) && (forall j: nat :: q < j ==> !OccursAt(s, "?>", j))
                  && AllTrimSpace(s[q + 2..]);
    var r := StrRPos(s, "?>");
    assert r.Some?;
    assert r.value == q;
    TrimEmptyIff(s[q + 2..]);
  }

  lemma NotCleanNeedsTag(s: string)
    requires !EndsCleanly(s)
    ensures NeedsClosingTag(s)
  {
    var r := StrRPos(s, "?>");
    if r.Some? {
      var p := r.value;
      TrimEmptyIff(s[p + 2..]);
    }
  }

  /** Appending the appendix always leaves content that ends cleanly: its
      `?>` is the last one and only a newline follows it. */
  lemma AppendixEndsCleanly(s: string)
    ensures EndsCleanly(s + Appendix)
  {
    var r := s + Appendix;
    var p := |s| + 1;
    assert r[p..p + 2] == "?>";
    assert OccursAt(r, "?>", p);
    forall j: nat | p < j
      ensures !OccursAt(r, "?>", j)
    {
      if j + 2 <= |r| {
        assert j == |s| + 2;
        assert r[j] == '>';
      }
    }
    assert r[p + 2..] == "\n";
  }

  /** The stored value is the raw content, unchanged exactly when it already
      ends cleanly, or else the raw content followed by the appendix; either
      way the result ends cleanly and keeps an opening tag the input had. */
  lemma CloseTagShape(s: string)
    ensures CloseTag(s) == s <==> EndsCleanly(s)
    ensures CloseTag(s) != s ==> CloseTag(s) == s + Appendix
    ensures EndsCleanly(CloseTag(s))
    ensures HasOpeningTag(s) ==> HasOpeningTag(CloseTag(s))
  {
    NeedsClosingTagIff(s);
    if NeedsClosingTag(s) {
      AppendixEndsCleanly(s);
      assert |CloseTag(s)| > |s|;
      if HasOpeningTag(s) {
        OccursInExtension(s, Appendix, "<?", StrPos(s, "<?").value);
      }
    }
  }

  /** Normalising already normalised content changes nothing. */
  lemma {:induction false} CloseTagIdempotent(s: string)
    ensures CloseTag(CloseTag(s)) == CloseTag(s)
  {
    CloseTagShape(s);
    CloseTagShape(CloseTag(s));
  }
}
