/** The course proposal form (`CursoForm`): which fields a student may
    set, and the checks the form and the model run on them. */
module Forms {
  import opened Base
  import opened Text
  import opened Domain

  /** An uploaded file: its name, its size in bytes, and the text the PDF
      reader gets out of it. */
  datatype Upload = Upload(name: string, size: nat, text: string)

  /** What the student submits: exactly the whitelisted fields. */
  datatype FormInput = FormInput(
    name: string,
    description: string,
    credits: int,
    whatsapp: string,
    syllabus: Option<Upload>
  )

  /** `clean_syllabus`: no file is passed through; a file over 3 MiB is an
      error; any other file is returned unchanged. */
  function CleanSyllabus(file: Option<Upload>): (r: Result<Option<Upload>>)
    ensures file.None? ==> r == Success(file)
    ensures file.Some? && file.value.size > MaxSyllabusBytes ==> r == Failure("El archivo debe ser menor a 3 MB.")
    ensures file.Some? && file.value.size <= MaxSyllabusBytes ==> r == Success(file)
  {
    if file.Some? && file.value.size > MaxSyllabusBytes then Failure("El archivo debe ser menor a 3 MB.")
    else Success(file)
  }

  /** The form check and the model check accept the same files. */
  lemma SizeChecksAgree(file: Option<Upload>)
    ensures CleanSyllabus(file).Success? <==>
            CleanCourse(if file.Some? then Some(file.value.size) else None).Success?
  {
  }

  /** The last component of a path-like name. */
  function BaseName(name: string): (b: string)
    ensures EndsWith(name, b)
    ensures forall k :: 0 <= k < |b| ==> b[k] != '/'
  {
    name[LastIndex(name, '/') + 1..]
  }

  /** `PurePath.suffix` (before Python 3.14): the last component from its
      last dot on, unless that dot is the component's first or last
      character, in which case there is no suffix. */
  function Suffix(name: string): string {
    var b := BaseName(name);
    var i := LastIndex(b, '.');
    if 0 < i < |b| - 1 then b[i..] else []
  }

  /** The extension `FileExtensionValidator(['pdf'])` takes from
      `Path(name).suffix`, without its dot and lower-cased, is "pdf". */
  predicate PdfName(name: string) {
    var ext := Suffix(name);
    ext != [] && Lower(ext[1..]) == "pdf"
  }

  /** Three characters that lower-case to "pdf" hold no dot. */
  lemma PdfHasNoDot(e: string)
    requires Lower(e) == "pdf"
    ensures |e| == 3 && forall k :: 0 <= k < 3 ==> e[k] != '.'
  {
    assert |Lower(e)| == 3;
    forall k | 0 <= k < 3
      ensures e[k] != '.'
    {
      assert Lower(e)[k] == Fold(e[k]);
    }
  }

  /** The extension check in terms of the name alone: the last component
      has a dot after its first character followed by exactly "pdf" in any
      case. So "..pdf" passes and ".pdf" does not. */
  lemma PdfNameIff(name: string)
    ensures PdfName(name) <==>
              var b := BaseName(name);
              exists i :: 0 < i < |b| && b[i] == '.' && Lower(b[i + 1..]) == "pdf"
  {
    var b := BaseName(name);
    if PdfName(name) {
      PdfNameDot(name);
    }
    if i :| 0 < i < |b| && b[i] == '.' && Lower(b[i + 1..]) == "pdf" {
      PdfNameFromDot(name, i);
    }
  }

  /** The suffix dot of a `.pdf` name. */
  lemma PdfNameDot(name: string)
    requires PdfName(name)
    ensures var b := BaseName(name);
            var i := LastIndex(b, '.');
            0 < i < |b| && b[i] == '.' && Lower(b[i + 1..]) == "pdf"
  {
    var b := BaseName(name);
    var i := LastIndex(b, '.');
    assert Suffix(name) == b[i..];
    assert b[i..][1..] == b[i + 1..];
  }

  /** A dot after the first character, followed by "pdf" in any case,
      makes a `.pdf` name. */
  lemma PdfNameFromDot(name: string, i: nat)
    requires var b := BaseName(name);
             0 < i < |b| && b[i] == '.' && Lower(b[i + 1..]) == "pdf"
    ensures PdfName(name)
  {
    var b := BaseName(name);
    PdfHasNoDot(b[i + 1..]);
    forall k | i < k < |b|
      ensures b[k] != '.'
    {
      assert b[k] == b[i + 1..][k - i - 1];
    }
    LastIndexAt(b, '.', i);
    assert Suffix(name) == b[i..];
    assert b[i..][1..] == b[i + 1..];
  }

  /** A name that passes the extension check ends in a dot and three
      characters that lower-case to "pdf", after at least one more
      character. */
  lemma PdfNameEnding(name: string)
    requires PdfName(name)
    ensures var b := BaseName(name);
            |b| > 4 && b[|b| - 4] == '.' && Lower(b[|b| - 3..]) == "pdf"
  {
    var b := BaseName(name);
    PdfNameDot(name);
    var i := LastIndex(b, '.');
    PdfHasNoDot(b[i + 1..]);
  }

  /** Worked example: pathlib skips a leading dot only, so "..pdf" has
      the suffix ".pdf". */
  lemma DoubleDotPdfAccepted()
    ensures PdfName("..pdf")
  {
    var n := "..pdf";
    LastIndexAtMost(n, '/', 0);
    assert BaseName(n) == n;
    assert n[2..] == "pdf";
    PdfNameFromDot(n, 1);
  }

  /** Worked example: a hidden ".pdf" has no suffix at all. */
  lemma HiddenPdfRefused()
    ensures !PdfName(".pdf")
  {
    var n := ".pdf";
    LastIndexAtMost(n, '/', 0);
    assert BaseName(n) == n;
    LastIndexAt(n, '.', 0);
  }

  /** The checks the form runs before the view sees the data.
      - Django's text fields strip their value first: the name must be
        non-blank and at most 200 characters once stripped, the stripped
        description at most 255, and neither may hold a NUL character.
      - Credits must lie within 1..11.
      - The syllabus must be present, not empty, with a name of 1..255
        characters whose suffix is `.pdf` in any case, and not larger than
        3 MiB. */
  predicate FormValid(input: FormInput) {
    && TextValid(input.name, input.description)
    && MinCredits as int <= input.credits <= MaxCredits as int
    && UploadValid(input.syllabus)
  }

  /** The name and description checks, on the values the form strips. */
  predicate TextValid(name: string, description: string) {
    && 0 < |Strip(name)| <= 200 && '\0' !in Strip(name)
    && |Strip(description)| <= 255 && '\0' !in Strip(description)
  }

  /** The syllabus checks: `FileField` wants a file with a name of 1..255
      characters and some content, the validator a `.pdf` suffix, and
      `clean_syllabus` at most 3 MiB. */
  predicate UploadValid(file: Option<Upload>) {
    && file.Some?
    && 0 < |file.value.name| <= 255
    && 0 < file.value.size
    && PdfName(file.value.name)
    && CleanSyllabus(file).Success?
  }

  /** An accepted form gives a course the model's own checks accept: a
      non-blank name of at most 200 characters and a description of at
      most 255, neither holding NUL, and a syllabus of 1 byte to 3 MiB that
      `Curso.clean` accepts, whose last name component is more than
      ".pdf" and ends in ".pdf" in any case. */
  lemma AcceptedFormFitsModel(input: FormInput, creator: UserId, school: SchoolId, credits: nat, cache: string)
    requires FormValid(input)
    ensures var c := NewCourse(input, creator, school, credits, cache);
            && 0 < |c.name| <= 200 && |c.description| <= 255
            && '\0' !in c.name && '\0' !in c.description
            && 0 < c.syllabusSize <= MaxSyllabusBytes
            && CleanCourse(Some(c.syllabusSize)).Success?
    ensures var b := BaseName(input.syllabus.value.name);
            |b| > 4 && b[|b| - 4] == '.' && Lower(b[|b| - 3..]) == "pdf"
  {
    PdfNameEnding(input.syllabus.value.name);
  }

  /** A character `urllib.parse` allows in a URL scheme. */
  predicate SchemeChar(c: char) {
    || ('a' <= c <= 'z') || ('A' <= c <= 'Z') || ('0' <= c <= '9')
    || c == '+' || c == '-' || c == '.'
  }

  /** An ASCII letter, which a scheme must open with. */
  predicate AsciiLetter(c: char) {
    ('a' <= c <= 'z') || ('A' <= c <= 'Z')
  }

  /** The index of the first `c` in `s`, or -1. */
  function FirstIndex(s: string, c: char): (i: int)
    ensures -1 <= i < |s|
    ensures i >= 0 ==> s[i] == c
    ensures forall k :: 0 <= k < |s| && (i < 0 || k < i) ==> s[k] != c
  {
    if s == [] then -1
    else if s[0] == c then 0
    else
      var j := FirstIndex(s[1..], c);
      if j < 0 then -1 else j + 1
  }

  /** Where `urlsplit` (Python 3.11 and later) ends the scheme: at the
      first colon, when something precedes it, the link opens with an
      ASCII letter and every character before the colon may appear in a
      scheme; -1 when the link has no scheme. */
  function SchemeEnd(s: string): (i: int)
    ensures -1 <= i < |s|
    ensures i >= 0 ==> 0 < i && s[i] == ':' && AsciiLetter(s[0])
    ensures i >= 0 ==> forall k :: 0 <= k < i ==> s[k] != ':' && SchemeChar(s[k])
  {
    var i := FirstIndex(s, ':');
    if 0 < i && AsciiLetter(s[0]) && forall k :: 0 <= k < i ==> SchemeChar(s[k]) then i else -1
  }

  /** A colon with scheme characters and no colon before it, after an
      opening ASCII letter, is where the scheme ends. */
  lemma SchemeEndAt(s: string, i: nat)
    requires 0 < i < |s| && s[i] == ':' && AsciiLetter(s[0])
    requires forall k :: 0 <= k < i ==> s[k] != ':' && SchemeChar(s[k])
    ensures SchemeEnd(s) == i
  {
    var f := FirstIndex(s, ':');
    assert f == i;
  }

  /** Whether `s` opens with "//". */
  predicate NetlocMark(s: string) {
    |s| >= 2 && s[..2] == "//"
  }

  /** `URLField.to_python` on a stripped link: the empty link stays empty;
      a link without a scheme gets "http:" (Django's assumed scheme)
      before "//", the host being taken from the path when there is no
      "//"; a link with a scheme gets it lower-cased, and "//" after it
      when missing. */
  function CleanLink(s: string): (r: string)
    ensures s == [] <==> r == []
  {
    if s == [] then []
    else if SchemeEnd(s) < 0 then
      if NetlocMark(s) then "http:" + s else "http://" + s
    else
      var i := SchemeEnd(s);
      Lower(s[..i]) + (if NetlocMark(s[i + 1..]) then ":" + s[i + 1..] else "://" + s[i + 1..])
  }

  /** What a cleaned link looks like: it has a lower-case scheme followed
      by "//", and ends with everything the link had after its own scheme.
      A link without a scheme gets "http"; a link with one keeps it,
      lower-cased. */
  lemma CleanLinkShape(s: string)
    requires s != []
    ensures var r := CleanLink(s);
            var j := SchemeEnd(r);
            && j >= 0 && NetlocMark(r[j + 1..]) && Lower(r[..j]) == r[..j]
            && EndsWith(r, s[SchemeEnd(s) + 1..])
            && (SchemeEnd(s) < 0 ==> r[..j] == "http")
            && (SchemeEnd(s) >= 0 ==> j == SchemeEnd(s) && r[..j] == Lower(s[..j]))
  {
    if SchemeEnd(s) < 0 {
      SchemelessShape(s);
    } else {
      SchemedShape(s);
    }
  }

  lemma SchemelessShape(s: string)
    requires s != [] && SchemeEnd(s) < 0
    ensures var r := CleanLink(s);
            && SchemeEnd(r) == 4 && NetlocMark(r[5..]) && r[..4] == "http" && Lower(r[..4]) == r[..4]
            && EndsWith(r, s)
  {
    var r := CleanLink(s);
    assert r[..4] == "http" && r[4] == ':';
    SchemeEndAt(r, 4);
    assert Lower(r[..4])[0] == 'h' && Lower(r[..4])[1] == 't' && Lower(r[..4])[2] == 't' && Lower(r[..4])[3] == 'p';
  }

  /** Lower-casing keeps scheme characters, makes no colon and is
      idempotent. */
  lemma FoldSchemeChar(c: char)
    requires SchemeChar(c)
    ensures SchemeChar(Fold(c)) && Fold(c) != ':' && Fold(Fold(c)) == Fold(c)
    ensures AsciiLetter(c) ==> AsciiLetter(Fold(c))
  {
  }

  lemma SchemedShape(s: string)
    requires SchemeEnd(s) >= 0
    ensures var r := CleanLink(s);
            var i := SchemeEnd(s);
            && SchemeEnd(r) == i && NetlocMark(r[i + 1..]) && r[..i] == Lower(s[..i]) && Lower(r[..i]) == r[..i]
            && EndsWith(r, s[i + 1..])
  {
    var r := CleanLink(s);
    var i := SchemeEnd(s);
    var scheme := Lower(s[..i]);
    assert r[..i] == scheme && r[i] == ':';
    forall k | 0 <= k < i
      ensures r[k] != ':' && SchemeChar(r[k]) && Fold(r[k]) == r[k]
    {
      assert r[k] == scheme[k] == Fold(s[k]);
      FoldSchemeChar(s[k]);
    }
    FoldSchemeChar(s[0]);
    SchemeEndAt(r, i);
    assert Lower(r[..i]) == r[..i] by {
      assert forall k :: 0 <= k < i ==> Lower(r[..i])[k] == Fold(r[k]);
    }
  }

  /** A link with a lower-case scheme followed by "//" is clean. */
  lemma CleanLinkFixes(r: string)
    requires SchemeEnd(r) >= 0 && NetlocMark(r[SchemeEnd(r) + 1..])
    requires Lower(r[..SchemeEnd(r)]) == r[..SchemeEnd(r)]
    ensures CleanLink(r) == r
  {
    var j := SchemeEnd(r);
    assert r == r[..j] + (":" + r[j + 1..]);
  }

  /** Cleaning a cleaned link changes nothing, so the saved link is one
      the form would keep as it is. */
  lemma CleanLinkIdempotent(s: string)
    ensures CleanLink(CleanLink(s)) == CleanLink(s)
  {
    if s != [] {
      CleanLinkShape(s);
      CleanLinkFixes(CleanLink(s));
    }
  }

  /** Worked example: a bare WhatsApp invitation gets the assumed scheme. */
  lemma BareLinkExample()
    ensures CleanLink("wa.me/X") == "http://wa.me/X"
  {
    var n := "wa.me/X";
    assert forall k :: 0 <= k < |n| ==> n[k] != ':';
    assert SchemeEnd(n) == -1;
    assert !NetlocMark(n);
  }

  /** Worked example: an upper-case scheme is lower-cased and the host
      is moved after "//". */
  lemma UpperSchemeExample()
    ensures CleanLink("HTTP:x") == "http://x"
  {
    var t := "HTTP:x";
    SchemeEndAt(t, 4);
    assert !NetlocMark(t[5..]);
    var l := Lower(t[..4]);
    assert l[0] == 'h' && l[1] == 't' && l[2] == 't' && l[3] == 'p';
  }

  /** `form.save(commit=False)` followed by the fields the view sets: the
      whitelisted fields come from the form, their text stripped as the
      form cleaned it and the link completed to a full URL, creator, school, credits and cached content from
      the view, and every other field keeps its default. */
  function NewCourse(input: FormInput, creator: UserId, school: SchoolId, credits: nat, cache: string): (c: Course)
    requires input.syllabus.Some?
    ensures c.name == Strip(input.name) && c.description == Strip(input.description)
    ensures c.whatsapp == CleanLink(Strip(input.whatsapp))
    ensures c.syllabusText == input.syllabus.value.text && c.syllabusSize == input.syllabus.value.size
    ensures c.creator == creator && c.school == school && c.credits == credits && c.cache == cache
  {
    Course(
      name := Strip(input.name),
      description := Strip(input.description),
      credits := credits,
      code := [],
      school := school,
      group := None,
      creator := creator,
      syllabusText := input.syllabus.value.text,
      syllabusSize := input.syllabus.value.size,
      whatsapp := CleanLink(Strip(input.whatsapp)),
      minStudents := 15,
      status := Proposed,
      pendingDelegate := None,
      cache := cache,
      embedding := None
    )
  }

  /** The fields outside the whitelist. */
  predicate SameProtectedFields(a: Course, b: Course) {
    && a.code == b.code && a.group == b.group && a.minStudents == b.minStudents
    && a.status == b.status && a.pendingDelegate == b.pendingDelegate && a.embedding == b.embedding
  }

  /** No submitted data can reach the protected fields: two submissions
      give courses that agree on all of them, and a new course starts
      without group, embedding or nominee. */
  lemma FormCannotSetProtectedFields(i1: FormInput, i2: FormInput, u1: UserId, u2: UserId,
                                     s1: SchoolId, s2: SchoolId, k1: nat, k2: nat, c1: string, c2: string)
    requires i1.syllabus.Some? && i2.syllabus.Some?
    ensures SameProtectedFields(NewCourse(i1, u1, s1, k1, c1), NewCourse(i2, u2, s2, k2, c2))
    ensures var c := NewCourse(i1, u1, s1, k1, c1);
            c.group.None? && c.embedding.None? && c.pendingDelegate.None? && c.status == Proposed
  {
  }

  /** The text the form keeps does not depend on surrounding whitespace:
      padding the name or the description changes neither whether the
      form is accepted nor the course it saves, and a blank name is
      refused. */
  lemma FormIgnoresPadding(input: FormInput, p: string, q: string, creator: UserId, school: SchoolId,
                           credits: nat, cache: string)
    requires AllSpace(p) && AllSpace(q)
    ensures FormValid(input.(name := p + input.name + q)) == FormValid(input)
    ensures FormValid(input.(description := p + input.description + q)) == FormValid(input)
    ensures input.syllabus.Some? ==>
              && NewCourse(input.(name := p + input.name + q), creator, school, credits, cache)
                 == NewCourse(input, creator, school, credits, cache)
              && NewCourse(input.(description := p + input.description + q), creator, school, credits, cache)
                 == NewCourse(input, creator, school, credits, cache)
    ensures AllSpace(input.name) ==> !FormValid(input)
  {
    NamePaddingIgnored(input, p, q, creator, school, credits, cache);
    DescriptionPaddingIgnored(input, p, q, creator, school, credits, cache);
  }

  lemma NamePaddingIgnored(input: FormInput, p: string, q: string, creator: UserId, school: SchoolId,
                           credits: nat, cache: string)
    requires AllSpace(p) && AllSpace(q)
    ensures FormValid(input.(name := p + input.name + q)) == FormValid(input)
    ensures input.syllabus.Some? ==>
              NewCourse(input.(name := p + input.name + q), creator, school, credits, cache)
              == NewCourse(input, creator, school, credits, cache)
  {
    StripIgnoresPadding(input.name, p, q);
    assert TextValid(p + input.name + q, input.description) == TextValid(input.name, input.description);
    if input.syllabus.Some? {
      PaddedCourse(input, input.(name := p + input.name + q), creator, school, credits, cache);
    }
  }

  lemma DescriptionPaddingIgnored(input: FormInput, p: string, q: string, creator: UserId, school: SchoolId,
                                  credits: nat, cache: string)
    requires AllSpace(p) && AllSpace(q)
    ensures FormValid(input.(description := p + input.description + q)) == FormValid(input)
    ensures input.syllabus.Some? ==>
              NewCourse(input.(description := p + input.description + q), creator, school, credits, cache)
              == NewCourse(input, creator, school, credits, cache)
  {
    StripIgnoresPadding(input.description, p, q);
    assert TextValid(input.name, p + input.description + q) == TextValid(input.name, input.description);
    if input.syllabus.Some? {
      PaddedCourse(input, input.(description := p + input.description + q), creator, school, credits, cache);
    }
  }

  /** Two submissions that agree once stripped save the same course. */
  lemma PaddedCourse(input: FormInput, padded: FormInput, creator: UserId, school: SchoolId,
                     credits: nat, cache: string)
    requires input.syllabus.Some? && padded.syllabus == input.syllabus && padded.whatsapp == input.whatsapp
    requires Strip(padded.name) == Strip(input.name) && Strip(padded.description) == Strip(input.description)
    ensures NewCourse(padded, creator, school, credits, cache) == NewCourse(input, creator, school, credits, cache)
  {
  }
}
