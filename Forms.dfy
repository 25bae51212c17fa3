/**
 * The create form's submit guard: the field's value is trimmed as
 * JavaScript's String.prototype.trim does; an empty result is ignored,
 * anything else clears the field and asks for a task with that title.
 */
module Forms {

  /**
   * The white-space and line-terminator characters String.prototype.trim
   * removes, by code point: tab, line feed, vertical tab, form feed,
   * carriage return (0x09-0x0D), space, no-break space, the space
   * separators, line and paragraph separator, and the byte-order mark.
   */
  predicate IsWhitespace(c: char) {
    var n := c as int;
    || 0x09 <= n <= 0x0D || n == 0x20 || n == 0xA0 || n == 0x1680 || 0x2000 <= n <= 0x200A
    || n == 0x2028 || n == 0x2029 || n == 0x202F || n == 0x205F || n == 0x3000 || n == 0xFEFF
  }

  predicate AllWhitespace(s: string) {
    forall i :: 0 <= i < |s| ==> IsWhitespace(s[i])
  }

  /** s without its leading white space. */
  function TrimStart(s: string): (r: string)
    ensures |r| <= |s| && r == s[|s| - |r|..]
    ensures AllWhitespace(s[..|s| - |r|])
    ensures r == [] || !IsWhitespace(r[0])
  {
    if s != [] && IsWhitespace(s[0]) then TrimStart(s[1..]) else s
  }

  /** s without its trailing white space. */
  function TrimEnd(s: string): (r: string)
    ensures |r| <= |s| && r == s[..|r|]
    ensures AllWhitespace(s[|r|..])
    ensures r == [] || !IsWhitespace(r[|r| - 1])
  {
    if s != [] && IsWhitespace(s[|s| - 1]) then TrimEnd(s[..|s| - 1]) else s
  }

  /**
   * String.prototype.trim: s with white space removed at both ends. The
   * result is s with an all-white-space prefix and suffix removed, it
   * neither starts nor ends with white space, and it is empty exactly when
   * s is all white space.
   */
  function Trim(s: string): (r: string)
    ensures exists p, q :: s == p + r + q && AllWhitespace(p) && AllWhitespace(q)
    ensures r == [] || (!IsWhitespace(r[0]) && !IsWhitespace(r[|r| - 1]))
    ensures r == [] <==> AllWhitespace(s)
  {
    TrimBothEnds(s);
    TrimEnd(TrimStart(s))
  }

  /** The facts Trim promises, for white space removed first at the start, then at the end. */
  lemma TrimBothEnds(s: string)
    ensures exists p, q :: s == p + TrimEnd(TrimStart(s)) + q && AllWhitespace(p) && AllWhitespace(q)
    ensures var r := TrimEnd(TrimStart(s)); r == [] || (!IsWhitespace(r[0]) && !IsWhitespace(r[|r| - 1]))
    ensures TrimEnd(TrimStart(s)) == [] <==> AllWhitespace(s)
  {
    var t := TrimStart(s);
    var r := TrimEnd(t);
    var p, q := s[..|s| - |t|], t[|r|..];
    Split(s, p, t, r, q);
    EndsKept(t, r);
    EmptyIffWhitespace(s, p, r, q);
    assert s == p + r + q && AllWhitespace(p) && AllWhitespace(q);
  }

  /** Split around a kept middle that does not start with white space, s is all white space exactly when the middle is empty. */
  lemma EmptyIffWhitespace(s: string, p: string, r: string, q: string)
    requires s == p + r + q && AllWhitespace(p) && AllWhitespace(q)
    requires r == [] || !IsWhitespace(r[0])
    ensures r == [] <==> AllWhitespace(s)
  {
    if r == [] {
      AllWhitespaceConcat(p, q);
      assert s == p + q;
    } else {
      assert s[|p|] == r[0];
      NotAllWhitespace(s, |p|);
    }
  }

  lemma NotAllWhitespace(s: string, k: nat)
    requires k < |s| && !IsWhitespace(s[k])
    ensures !AllWhitespace(s)
  {
  }

  /** Removing trailing white space from a string that starts with none keeps its first character. */
  lemma EndsKept(t: string, r: string)
    requires t == [] || !IsWhitespace(t[0])
    requires |r| <= |t| && r == t[..|r|]
    ensures r == [] || !IsWhitespace(r[0])
  {
    if r != [] {
      assert r[0] == t[0];
    }
  }

  /** Peeling t off the end of s and q off the end of t splits s in three. */
  lemma Split(s: string, p: string, t: string, r: string, q: string)
    requires |t| <= |s| && t == s[|s| - |t|..] && p == s[..|s| - |t|]
    requires |r| <= |t| && r == t[..|r|] && q == t[|r|..]
    ensures s == p + r + q
  {
    assert t == r + q;
    assert s == p + t;
  }

  lemma AllWhitespaceConcat(p: string, q: string)
    requires AllWhitespace(p) && AllWhitespace(q)
    ensures AllWhitespace(p + q)
  {
    forall i | 0 <= i < |p + q| ensures IsWhitespace((p + q)[i]) {
      if i < |p| { assert (p + q)[i] == p[i]; } else { assert (p + q)[i] == q[i - |p|]; }
    }
  }

  /** What the submit handler does with the title field's value. */
  datatype Submission = Ignored | Submitted(title: string)

  /**
   * The submit handler: the submission it makes and the field's value
   * afterwards. A value that is all white space is ignored and left in
   * the field; otherwise the trimmed, non-empty title is submitted and the
   * field is cleared.
   */
  function OnSubmit(value: string): (r: (Submission, string))
    ensures r.0.Ignored? <==> AllWhitespace(value)
    ensures r.0.Ignored? ==> r.1 == value
    ensures r.0.Submitted? ==> r.0.title == Trim(value) && r.0.title != [] && r.1 == []
  {
    var title := Trim(value);
    if title == [] then (Ignored, value) else (Submitted(title), [])
  }

  /** Trimming twice is trimming once. */
  lemma TrimIdempotent(s: string)
    ensures Trim(Trim(s)) == Trim(s)
  {
    var r := Trim(s);
    assert TrimStart(r) == r;
    assert TrimEnd(r) == r;
  }

  /** A submitted title is its own trim, so submitting it again submits the same title. */
  lemma SubmittedTitleStable(value: string)
    requires OnSubmit(value).0.Submitted?
    ensures OnSubmit(OnSubmit(value).0.title).0 == OnSubmit(value).0
  {
    TrimIdempotent(value);
  }
}
