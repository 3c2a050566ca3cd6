/** Python's white space and str.strip / lstrip / rstrip. */
module PythonText {
  predicate IsSpace(c: char) {
    || '\t' <= c <= '\r' || '\U{1C}' <= c <= ' ' || c == '\U{85}' || c == '\U{A0}'
    || c == '\U{1680}' || '\U{2000}' <= c <= '\U{200A}' || c == '\U{2028}' || c == '\U{2029}'
    || c == '\U{202F}' || c == '\U{205F}' || c == '\U{3000}'
  }

  /** The 29 characters that Python takes for white space. */
  lemma SpaceTable(c: char)
    ensures IsSpace(c) <==>
            c in {'\t', '\n', '\U{0B}', '\U{0C}', '\r', '\U{1C}', '\U{1D}', '\U{1E}', '\U{1F}', ' ', '\U{85}', '\U{A0}', '\U{1680}',
                  '\U{2000}', '\U{2001}', '\U{2002}', '\U{2003}', '\U{2004}', '\U{2005}', '\U{2006}', '\U{2007}', '\U{2008}',
                  '\U{2009}', '\U{200A}', '\U{2028}', '\U{2029}', '\U{202F}', '\U{205F}', '\U{3000}'}
  {
  }

  function LStrip(s: string): string {
    if s != [] && IsSpace(s[0]) then LStrip(s[1..]) else s
  }

  function RStrip(s: string): string {
    if s != [] && IsSpace(s[|s| - 1]) then RStrip(s[..|s| - 1]) else s
  }

  function Strip(s: string): string {
    RStrip(LStrip(s))
  }

  predicate Blank(s: string) { forall i :: 0 <= i < |s| ==> IsSpace(s[i]) }

  // A string that stripping leaves alone.
  predicate Stripped(s: string) { s == "" || (!IsSpace(s[0]) && !IsSpace(s[|s| - 1])) }

  lemma {:induction false} LStripBlank(lead: string, s: string)
    requires Blank(lead) && (s == "" || !IsSpace(s[0]))
    ensures LStrip(lead + s) == s
  {
    if lead == "" {
      assert lead + s == s;
    } else {
      assert (lead + s)[1..] == lead[1..] + s;
      LStripBlank(lead[1..], s);
    }
  }

  lemma {:induction false} RStripBlank(s: string, trail: string)
    requires Blank(trail) && (s == "" || !IsSpace(s[|s| - 1]))
    ensures RStrip(s + trail) == s
  {
    if trail == "" {
      assert s + trail == s;
    } else {
      var front := trail[..|trail| - 1];
      assert (s + trail)[..|s + trail| - 1] == s + front;
      RStripBlank(s, front);
    }
  }

  lemma StripBlanks(lead: string, body: string, trail: string)
    requires Blank(lead) && Stripped(body) && Blank(trail)
    ensures Strip(lead + body + trail) == body
  {
    if body == "" {
      assert lead + body + trail == lead + trail;
      LStripBlank(lead + trail, "");
      assert (lead + trail) + "" == lead + trail;
    } else {
      assert lead + body + trail == lead + (body + trail);
      LStripBlank(lead, body + trail);
      RStripBlank(body, trail);
    }
  }

  lemma {:induction false} RStripSplit(s: string) returns (trail: string)
    ensures Blank(trail) && s == RStrip(s) + trail && (RStrip(s) == "" || !IsSpace(RStrip(s)[|RStrip(s)| - 1]))
  {
    if s != "" && IsSpace(s[|s| - 1]) {
      var rest := RStripSplit(s[..|s| - 1]);
      trail := rest + [s[|s| - 1]];
    } else {
      trail := "";
    }
  }

  lemma {:induction false} LStripSplit(s: string) returns (lead: string)
    ensures Blank(lead) && s == lead + LStrip(s) && (LStrip(s) == "" || !IsSpace(LStrip(s)[0]))
  {
    if s != "" && IsSpace(s[0]) {
      var rest := LStripSplit(s[1..]);
      lead := [s[0]] + rest;
    } else {
      lead := "";
    }
  }

  /** Every string is its stripped form between blanks. */
  lemma StripSplit(s: string) returns (lead: string, trail: string)
    ensures Blank(lead) && Blank(trail) && Stripped(Strip(s)) && s == lead + Strip(s) + trail
  {
    lead := LStripSplit(s);
    var rest := LStrip(s);
    trail := RStripSplit(rest);
  }
}
