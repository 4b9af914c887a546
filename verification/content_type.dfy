/**
 The file server's choice of `Content-Type` (and `Content-Encoding: gzip`)
 from the name of the file it sends: the `IS_FILE_EXT` macro and
 `set_content_type_from_file`.
 */
module ContentType {
  import opened Wrappers
  import opened CString

  /** One row of the ordered extension table. */
  datatype Rule = Rule(ext: string, mime: string, gzip: bool)

  /** The header values set on the response. */
  datatype ResponseType = ResponseType(mime: string, gzip: bool)

  /** The extensions in the order the `if`/`else if` chain tests them. */
  const Rules: seq<Rule> := [
    Rule(".pdf", "application/pdf", false),
    Rule(".html", "text/html", false),
    Rule(".jpeg", "image/jpeg", false),
    Rule(".ico", "image/x-icon", false),
    Rule(".js.gz", "text/javascript", true),
    Rule(".css.gz", "text/css", true),
    Rule(".js", "text/javascript", false),
    Rule(".css", "text/css", false),
    Rule(".png", "image/png", false)
  ]

  /** The type sent when no extension matches. */
  const Fallback := ResponseType("text/plain", false)

  /** The longest extension in the table; a name at least this long never underflows the macro. */
  const LongestExt := 7

  /**
   `IS_FILE_EXT(filename, ext)`: `strcasecmp` of the last `|ext|` characters
   against `ext` (`sizeof(ext) - 1 == |ext|` for a literal). The macro indexes
   at `strlen(filename) - |ext|`, which underflows when the name is shorter.
   */
  function IsFileExt(filename: string, ext: string): (b: bool)
    requires |ext| <= |filename|
    ensures b <==> EndsWithIgnoreCase(filename, ext)
  {
    var tail := filename[|filename| - |ext|..];
    StrCaseCmpEqualLength(tail, ext);
    StrCaseCmp(tail, ext) == 0
  }

  /**
   The chain evaluated over `rules` never indexes before the start of the
   name: every extension it reaches fits inside `filename`.
   */
  predicate ChainDefined(filename: string, rules: seq<Rule>) {
    rules == [] ||
    (|rules[0].ext| <= |filename| &&
     (IsFileExt(filename, rules[0].ext) || ChainDefined(filename, rules[1..])))
  }

  /** The position in `rules` of the first extension the name ends with. */
  function MatchIndex(filename: string, rules: seq<Rule>): (r: Option<nat>)
    requires ChainDefined(filename, rules)
    ensures r.Some? ==> r.value < |rules| && EndsWithIgnoreCase(filename, rules[r.value].ext)
    ensures r.Some? ==> forall j :: 0 <= j < r.value ==> !EndsWithIgnoreCase(filename, rules[j].ext)
    ensures r.None? <==> forall j :: 0 <= j < |rules| ==> !EndsWithIgnoreCase(filename, rules[j].ext)
  {
    if rules == [] then None
    else if IsFileExt(filename, rules[0].ext) then Some(0)
    else
      var rest := MatchIndex(filename, rules[1..]);
      assert forall j :: 1 <= j < |rules| ==> rules[j] == rules[1..][j - 1];
      match rest
      case None => None
      case Some(k) => Some(k + 1)
  }

  /**
   `set_content_type_from_file`: the first matching extension decides the
   type, `text/plain` otherwise; gzip is flagged for `.js.gz` and `.css.gz`.
   */
  function ContentTypeFor(filename: string): (r: ResponseType)
    requires ChainDefined(filename, Rules)
    ensures forall k :: 0 <= k < |Rules| && EndsWithIgnoreCase(filename, Rules[k].ext) &&
                        (forall j :: 0 <= j < k ==> !EndsWithIgnoreCase(filename, Rules[j].ext)) ==>
              r == ResponseType(Rules[k].mime, Rules[k].gzip)
    ensures (forall k :: 0 <= k < |Rules| ==> !EndsWithIgnoreCase(filename, Rules[k].ext)) ==>
              r == Fallback
  {
    match MatchIndex(filename, Rules)
    case None => Fallback
    case Some(k) => ResponseType(Rules[k].mime, Rules[k].gzip)
  }

  /** Every name at least as long as the longest extension can be classified. */
  lemma {:induction false} LongNamesAreDefined(filename: string, rules: seq<Rule>)
    requires forall k :: 0 <= k < |rules| ==> |rules[k].ext| <= |filename|
    ensures ChainDefined(filename, rules)
    decreases |rules|
  {
    if rules != [] {
      assert |rules[0].ext| <= |filename|;
      LongNamesAreDefined(filename, rules[1..]);
    }
  }

  /** Facts about the table read off its literal once, so that proofs need not unfold it. */
  lemma RuleFacts()
    ensures |Rules| == 9
    ensures forall k :: 0 <= k < |Rules| ==> |Rules[k].ext| <= LongestExt
    ensures forall k :: 0 <= k < |Rules| ==> (Rules[k].gzip <==> k == 4 || k == 5)
    ensures Rules[4].ext == ".js.gz" && Rules[5].ext == ".css.gz"
  {
  }

  lemma ClassifiableWhenLong(filename: string)
    requires |filename| >= LongestExt
    ensures ChainDefined(filename, Rules)
  {
    RuleFacts();
    LongNamesAreDefined(filename, Rules);
  }

  /**
   Two suffixes of one name agree, up to case, on their common tail:
   compared from the last character backwards.
   */
  predicate TailsAgree(a: string, b: string)
    decreases |a|
  {
    |a| == 0 || |b| == 0 ||
    (Lower(a[|a| - 1]) == Lower(b[|b| - 1]) && TailsAgree(a[..|a| - 1], b[..|b| - 1]))
  }

  lemma {:induction false} BothSuffixesAgree(s: string, a: string, b: string)
    requires EndsWithIgnoreCase(s, a) && EndsWithIgnoreCase(s, b)
    ensures TailsAgree(a, b)
    decreases |a|
  {
    if |a| > 0 && |b| > 0 {
      var s' := s[..|s| - 1];
      var a' := a[..|a| - 1];
      var b' := b[..|b| - 1];
      assert Lower(s[|s| - 1]) == Lower(a[|a| - 1]) by {
        assert s[|s| - |a|..][|a| - 1] == s[|s| - 1];
      }
      assert Lower(s[|s| - 1]) == Lower(b[|b| - 1]) by {
        assert s[|s| - |b|..][|b| - 1] == s[|s| - 1];
      }
      forall i | 0 <= i < |a'|
        ensures Lower(s'[|s'| - |a'|..][i]) == Lower(a'[i])
      {
        assert s'[|s'| - |a'|..][i] == s[|s| - |a|..][i];
      }
      forall i | 0 <= i < |b'|
        ensures Lower(s'[|s'| - |b'|..][i]) == Lower(b'[i])
      {
        assert s'[|s'| - |b'|..][i] == s[|s| - |b|..][i];
      }
      BothSuffixesAgree(s', a', b');
    }
  }

  /** No two extensions of the table can both end one name. */
  lemma ExtensionsDisagree()
    ensures forall i, j :: 0 <= i < j < |Rules| ==> !TailsAgree(Rules[i].ext, Rules[j].ext)
  {
    assert TailsAgree(".js.gz", ".css.gz") ==> TailsAgree(".js", ".css") by {
      assert ".js.gz"[..5] == ".js.g" && ".css.gz"[..6] == ".css.g";
      assert ".js.g"[..4] == ".js." && ".css.g"[..5] == ".css.";
      assert ".js."[..3] == ".js" && ".css."[..4] == ".css";
    }
    assert !TailsAgree(".pdf", ".html") && !TailsAgree(".pdf", ".jpeg") &&
           !TailsAgree(".pdf", ".ico") && !TailsAgree(".pdf", ".js.gz") &&
           !TailsAgree(".pdf", ".css.gz") && !TailsAgree(".pdf", ".js") &&
           !TailsAgree(".pdf", ".css") && !TailsAgree(".pdf", ".png");
    assert !TailsAgree(".html", ".jpeg") && !TailsAgree(".html", ".ico") &&
           !TailsAgree(".html", ".js.gz") && !TailsAgree(".html", ".css.gz") &&
           !TailsAgree(".html", ".js") && !TailsAgree(".html", ".css") &&
           !TailsAgree(".html", ".png");
    assert !TailsAgree(".jpeg", ".ico") && !TailsAgree(".jpeg", ".js.gz") &&
           !TailsAgree(".jpeg", ".css.gz") && !TailsAgree(".jpeg", ".js") &&
           !TailsAgree(".jpeg", ".css") && !TailsAgree(".jpeg", ".png");
    assert !TailsAgree(".ico", ".js.gz") && !TailsAgree(".ico", ".css.gz") &&
           !TailsAgree(".ico", ".js") && !TailsAgree(".ico", ".css") && !TailsAgree(".ico", ".png");
    assert !TailsAgree(".js.gz", ".css.gz") && !TailsAgree(".js.gz", ".js") &&
           !TailsAgree(".js.gz", ".css") && !TailsAgree(".js.gz", ".png");
    assert !TailsAgree(".css.gz", ".js") && !TailsAgree(".css.gz", ".css") &&
           !TailsAgree(".css.gz", ".png");
    assert !TailsAgree(".js", ".css") && !TailsAgree(".js", ".png");
    assert !TailsAgree(".css", ".png");
  }

  /** The order of the chain never matters: whichever extension the name ends with decides. */
  lemma MatchingExtensionDecides(filename: string, k: nat)
    requires ChainDefined(filename, Rules)
    requires k < |Rules| && EndsWithIgnoreCase(filename, Rules[k].ext)
    ensures ContentTypeFor(filename) == ResponseType(Rules[k].mime, Rules[k].gzip)
  {
    var m := MatchIndex(filename, Rules);
    AtMostOneExtension(filename, m.value, k);
  }

  /** A name ends with at most one extension of the table. */
  lemma AtMostOneExtension(filename: string, j: nat, k: nat)
    requires j < |Rules| && k < |Rules|
    requires EndsWithIgnoreCase(filename, Rules[j].ext) && EndsWithIgnoreCase(filename, Rules[k].ext)
    ensures j == k
  {
    ExtensionsDisagree();
    if j < k {
      BothSuffixesAgree(filename, Rules[j].ext, Rules[k].ext);
    } else if k < j {
      BothSuffixesAgree(filename, Rules[k].ext, Rules[j].ext);
    }
  }

  /** `Content-Encoding: gzip` is set exactly for `.js.gz` and `.css.gz` names. */
  lemma GzipExactlyForCompressed(filename: string)
    requires ChainDefined(filename, Rules)
    ensures ContentTypeFor(filename).gzip <==>
              EndsWithIgnoreCase(filename, ".js.gz") || EndsWithIgnoreCase(filename, ".css.gz")
  {
    RuleFacts();
    var m := MatchIndex(filename, Rules);
    if m.Some? {
      var k := m.value;
      assert ContentTypeFor(filename).gzip == Rules[k].gzip;
      if EndsWithIgnoreCase(filename, Rules[4].ext) {
        AtMostOneExtension(filename, 4, k);
      }
      if EndsWithIgnoreCase(filename, Rules[5].ext) {
        AtMostOneExtension(filename, 5, k);
      }
    } else {
      assert !EndsWithIgnoreCase(filename, Rules[4].ext);
      assert !EndsWithIgnoreCase(filename, Rules[5].ext);
    }
  }

  /** A name ending in an extension that shares no tail with any table entry is sent as `text/plain`. */
  lemma UnlistedExtensionIsPlain(filename: string, ext: string)
    requires ChainDefined(filename, Rules)
    requires EndsWithIgnoreCase(filename, ext)
    requires forall k :: 0 <= k < |Rules| ==> !TailsAgree(ext, Rules[k].ext)
    ensures ContentTypeFor(filename) == Fallback
  {
    forall k | 0 <= k < |Rules|
      ensures !EndsWithIgnoreCase(filename, Rules[k].ext)
    {
      if EndsWithIgnoreCase(filename, Rules[k].ext) {
        BothSuffixesAgree(filename, ext, Rules[k].ext);
      }
    }
  }

  /** `.jpg` is not in the table (only `.jpeg` is): such files go out as `text/plain`. */
  lemma JpgIsPlain(filename: string)
    requires ChainDefined(filename, Rules)
    requires EndsWithIgnoreCase(filename, ".jpg")
    ensures ContentTypeFor(filename) == Fallback
  {
    UnlistedExtensionIsPlain(filename, ".jpg");
  }

  lemma EndsWithAfterPrefix(p: string, g: string, ext: string)
    requires |ext| <= |g|
    ensures EndsWithIgnoreCase(p + g, ext) <==> EndsWithIgnoreCase(g, ext)
  {
    assert (p + g)[|p + g| - |ext|..] == g[|g| - |ext|..];
  }

  /** Only the last `LongestExt` characters of a name matter: a leading directory never changes the type. */
  lemma TypeDependsOnTail(p: string, g: string)
    requires |g| >= LongestExt
    ensures ChainDefined(g, Rules) && ChainDefined(p + g, Rules)
    ensures ContentTypeFor(p + g) == ContentTypeFor(g)
  {
    ClassifiableWhenLong(g);
    ClassifiableWhenLong(p + g);
    forall k | 0 <= k < |Rules|
      ensures EndsWithIgnoreCase(p + g, Rules[k].ext) <==> EndsWithIgnoreCase(g, Rules[k].ext)
    {
      EndsWithAfterPrefix(p, g, Rules[k].ext);
    }
    if k :| 0 <= k < |Rules| && EndsWithIgnoreCase(g, Rules[k].ext) {
      MatchingExtensionDecides(g, k);
      MatchingExtensionDecides(p + g, k);
    }
  }
}
