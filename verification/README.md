# Course proposals and equivalence groups: a Dafny model

The application lets students of the Universidad Nacional de San Agustín
propose elective courses, gather classmates, and find the same course
proposed at other schools. A student uploads the course's syllabus as a
PDF. The application then:

- checks that the file is an official syllabus (a keyword score);
- reads the number of credits off it (a regular expression);
- cuts out the "CONTENIDO TEMÁTICO" section (heading patterns searched
  leftmost-first).

A background job then places the course in an **equivalence group**. It
compares the course with every group that already holds a course of the
same credits. The semantic comparison is the cosine similarity of
embeddings. The lexical comparison is the Jaccard similarity of lemma sets.
The course joins the best compatible group or founds a new one. When an
empty embedding takes part in the comparison (one stored while the
embedding model was unavailable, say), numpy raises: the course stays as
it was saved, without a group of its own.

Students join and leave courses. Each student may hold at most 11 credits
in at most 2 courses. The course's creator is its **delegate**; the
delegate can only leave by handing the role to an enrolled classmate who
accepts it. A student sees the courses of their own school and those whose
group includes their school, with classmates' surnames and student codes
masked.

The model is functional. The database is an immutable `Store` of users,
courses, groups and enrollments, and every view and the matcher are pure
transitions of it. The modules follow the program's structure:

| module | file | models |
|---|---|---|
| `Base` | base.dfy | `Option`, `Result`, ascending enumeration of id sets, sums over id sets |
| `Text` | text.dfy | Python's `lower`, `isspace`, `strip`, `in`, `endswith`, slicing, digit filter |
| `Pattern` | pattern.dfy | the fragment of `re` the heading patterns use: greedy matching, alternation, `re.search`, with a relational semantics and proofs that the greedy matcher is exact on these patterns |
| `Validator` | validator.dfy | `validar_es_silabo_unsa` |
| `Section` | section.dfy | `extraer_solo_contenido_tematico` |
| `Credits` | credits.dfy | the credit pattern `(?i)crédito.*?\s*[:\.]?\s*(\d)` |
| `Extraction` | extraction.dfy | `extraer_datos_inteligente` from the PDF's text on |
| `Lexical` | lexical.dfy | the cleaning and lemma filter of `limpiar_texto_para_tokens`, `calcular_jaccard` |
| `Domain` | domain.dfy | the models: schema constraints, `progreso_porcentaje`, `Curso.clean`, `syllabus_upload_path` |
| `Forms` | forms.dfy | `CursoForm`: its field whitelist and `clean_syllabus` |
| `Matching` | matching.dfy | `procesar_y_agrupar_curso`, `crear_grupo_nuevo` |
| `Views` | views.dfy | create, join, leave, nominate, respond, upload and delete document |
| `Visibility` | visibility.dfy | the dashboard, the course detail page, the masking of personal data |
| `Adapters` | adapters.dfy | the sign-in adapters |
| `Lifecycle` | lifecycle.dfy | a proposal followed by its matching |

The invariants every transition keeps are `Domain.Invariants` and
`Domain.WithinLimits`:

- `Invariants` holds the schema's constraints (credit range 1..11, foreign
  keys, one enrollment per student and course), that creators and pending
  nominees are enrolled, and that grouped courses belong to one of their
  group's schools.
- `WithinLimits` says every student holds at most 11 credits in at most 2
  courses.

`Views.CreateCourse` takes the extraction result `d` as a parameter, and
`Lifecycle.ProposalThenMatchingKeepsLimits` instantiates it with
`Extraction.ExtractData` of the uploaded text, as the view does.

There are two definitions of `leave_course_view` in
apps/frontend/views.py. The second (line 294) rebinds the name, and the URL
table resolves to it, so it is the one modelled.

## Model

| member | source | states |
|---|---|---|
| Text.Lower | apps/courses/services.py:150 | lower-casing keeps the length and folds each character on its own |
| Text.LowerAppend | apps/courses/services.py:150 | lower-casing distributes over concatenation |
| Text.FoldIdempotent | apps/courses/services.py:101 | lower-casing a lower-cased character changes nothing |
| Text.Strip | apps/courses/services.py:143 | `strip()` returns a slice framed only by whitespace; it is empty exactly for all-whitespace text and otherwise starts and ends with non-whitespace |
| Text.StripIgnoresPadding | apps/courses/services.py:145 | whitespace added around a text does not change what `strip()` keeps of it |
| Text.StripGrowsWithAppend | apps/courses/services.py:179 | appending text never shortens what `strip()` keeps |
| Text.ContainsExtend | apps/courses/services.py:164 | a substring of a text is a substring of any extension of it |
| Text.DigitsOfAppend | apps/frontend/views.py:264 | filtering digits distributes over concatenation |
| Text.DigitsOfDigits | apps/frontend/views.py:264 | a string of digits is its own digit filter |
| Pattern.MatchSeqSound | apps/courses/services.py:133 | what the greedy matcher reports is a genuine match of the pattern |
| Pattern.MatchSeqComplete | apps/courses/services.py:133 | on a well-formed pattern every match is the one the greedy matcher reports, so there is exactly one |
| Pattern.FirstAltCorrect | apps/courses/services.py:130-133 | alternation reports a match exactly when some alternative matches, and its end is that of the first alternative in the order written |
| Pattern.SearchIsLeftmostFirst | apps/courses/services.py:133 | `re.search` reports a match exactly at the leftmost position where any alternative matches, with the first such alternative; no match means no alternative matches anywhere |
| Pattern.SearchSameAlts | apps/courses/services.py:140 | two alternations that agree at every position are searched alike |
| Pattern.FirstAltDropLast | apps/courses/services.py:124-128 | an alternative that can only match where an earlier one does never changes the result |
| Validator.IsOfficialSyllabus | apps/courses/services.py:148-168 | the text passes exactly when it is non-empty and 2 per high-confidence phrase plus 1 per context word found in its lower-cased form reaches 6 |
| Validator.HitsCountsPresent | apps/courses/services.py:162-166 | counting list entries one at a time counts the distinct keywords present |
| Validator.OfficialSyllabusExtend | apps/courses/services.py:148-168 | text added before or after a syllabus never makes it fail |
| Validator.AccentVariantsCountTwice | apps/courses/services.py:158 | "créditos" and "creditos" are two keywords and score twice |
| Validator.ThreeHighKeywordsPass | apps/courses/services.py:152-168 | three high-confidence phrases alone reach the pass score |
| Section.NormaliseKeepsAllButCR | apps/courses/services.py:121 | replacing CRLF by LF only ever deletes carriage returns |
| Section.NormaliseWithoutCR | apps/courses/services.py:121 | text without carriage returns is left as it is |
| Section.NormaliseIsSinglePass | apps/courses/services.py:121 | worked example: the replacement is one left-to-right pass, so "\r\r\n" becomes "\r\n" |
| Section.StartMatchesAtContenido | apps/courses/services.py:123 | the start pattern matches exactly where "CONTENIDO" occurs in any case, and extends over whitespace and "TEMÁTICO" or "TEMATICO" when they follow |
| Section.SectionStartsAfterFirstContenido | apps/courses/services.py:133-137 | a start heading is found exactly when "CONTENIDO" occurs, and it is found at the first occurrence |
| Section.HeadingPatternsWellFormed | apps/courses/services.py:123-128 | every heading pattern has the shape on which greedy matching is exact |
| Section.ThirdEndHeadingRedundant | apps/courses/services.py:124-128 | the third end heading never changes where the section ends |
| Section.ThematicSection | apps/courses/services.py:134-135 | without a start heading the section is the first 2000 characters of the normalised text, unstripped |
| Section.NoHeadingGivesPrefix | apps/courses/services.py:134-135 | without "CONTENIDO" the result is a prefix of the normalised text of at most 2000 characters |
| Section.SectionBetweenHeadings | apps/courses/services.py:137-145 | with a start heading, the section is the stripped text after it: up to the leftmost position where any end heading can be read, or its first 3000 characters when none can be read |
| Section.SectionAtEndHeading | apps/courses/services.py:140-145 | when an end heading can be read after the start heading, the section is the stripped text before the leftmost one |
| Section.SectionEndIsLeftmostEndHeading | apps/courses/services.py:140-143 | with an end heading the section stops at the leftmost position where any end heading matches |
| Section.NoEndHeadingAnywhere | apps/courses/services.py:140-145 | when no end heading is reported none can be read anywhere after the start |
| Section.NoEndHeadingBounded | apps/courses/services.py:140-145 | when no end heading can be read after the start heading, the section is the stripped first 3000 characters after it, so at most 3000 long |
| Credits.TailCaptureExact | apps/courses/services.py:194 | `\s*[:\.]?\s*(\d)` has at most one reading from a position, and the digit found is the one of that reading |
| Credits.LazyCapture | apps/courses/services.py:194 | the lazy `.*?` finds a digit exactly when the tail can be read from some position before the line ends |
| Credits.LazyCaptureFirstDigit | apps/courses/services.py:194 | what the lazy star captures is the first digit after "crédito" |
| Credits.CaptureAtCorrect | apps/courses/services.py:194 | the pattern matches at a position exactly when some reading of it starts there, and the captured digit is the first digit after "crédito" |
| Credits.CreditMatchLeftmost | apps/courses/services.py:194 | `re.search` reports the leftmost position at which the pattern matches, or none when it matches nowhere |
| Credits.ExtractCreditsNoMatch | apps/courses/services.py:194-196 | no match is reported exactly when the pattern can be read nowhere, and then the credits stay 0 |
| Credits.ExtractCreditsLeftmost | apps/courses/services.py:194-196 | otherwise the match starts at the leftmost "crédito" from which the pattern can be read (any characters of its line, then whitespace that may cross line ends, an optional ":" or ".", whitespace, a digit); the credits are the first digit after that word, so they lie in 0..9 |
| Credits.DigitOnSameLineMatches | apps/courses/services.py:194 | a digit on the same line after "crédito" guarantees a match at or before it |
| Credits.TwoDigitCountReadAsOne | apps/courses/services.py:194-196 | after "Créditos: " only the first digit is read, so a count of two or more digits yields its leading digit whatever follows |
| Extraction.ExtractData | apps/courses/services.py:171-200 | the three outcomes: `valido` exactly for readable text, `es_silabo` exactly for readable text that passes the validator, the message tells an empty read from short text, and credits and content come from the syllabus only when accepted |
| Extraction.ExtractDataWellShaped | apps/courses/services.py:171-200 | a syllabus is always valid, content and credits are only set for a syllabus, credits lie in 0..9, and the message is empty exactly for a syllabus |
| Extraction.MessageEmptyOnlyWhenAccepted | apps/courses/services.py:172-187 | every rejection carries a non-empty message |
| Extraction.ShortTextRejected | apps/courses/services.py:179-184 | text with fewer than 100 characters once stripped is invalid: damaged when empty, illegible otherwise |
| Extraction.AppendKeepsAcceptance | apps/courses/services.py:179-192 | an accepted syllabus stays accepted whatever text is appended after it |
| Lexical.CleanForTokens | apps/courses/services.py:101-103 | the cleaned text is lower-case, holds only letters, accented Spanish letters and whitespace, and has at most 500000 characters |
| Lexical.CleanIdempotent | apps/courses/services.py:101-103 | cleaning a cleaned text changes nothing |
| Lexical.LemmaSet | apps/courses/services.py:107-115 | a lemma is kept exactly when some token that is neither a stop word nor punctuation, longer than 2 characters and not an extra stop word has it |
| Lexical.LemmaSetAppend | apps/courses/services.py:111-115 | the lemma set of a token stream is the union of those of its parts |
| Lexical.TokenSet | apps/courses/services.py:97-117 | no lemmas for empty text or without a language model; otherwise the filtered lemmas of the cleaned text, all lower-case and none an extra stop word |
| Lexical.Jaccard | apps/courses/services.py:218-222 | the similarity lies in [0, 1] and is 0 when either set is empty |
| Lexical.JaccardSymmetric | apps/courses/services.py:218-222 | the similarity is symmetric |
| Lexical.JaccardOneIffEqual | apps/courses/services.py:218-222 | the similarity is 1 exactly for two equal non-empty sets |
| Lexical.JaccardZeroIffDisjoint | apps/courses/services.py:218-222 | the similarity is 0 exactly when the sets share nothing |
| Lexical.JaccardGrowsWithSharedLemma | apps/courses/services.py:218-222 | sharing one more lemma raises the similarity |
| Domain.Progress | apps/courses/models.py:95-98 | 100 without a minimum; otherwise at most 100, exactly 100 once the minimum is reached, and below it the enrolled share in whole percent rounded down |
| Domain.ProgressMonotone | apps/courses/models.py:95-98 | more students never lower the progress |
| Domain.CleanCourse | apps/courses/models.py:100-107 | a stored syllabus is accepted exactly when it is absent or at most 3 MiB, with the model's message otherwise |
| Domain.CleanCourseBoundary | apps/courses/models.py:102-104 | worked example: exactly 3 MiB passes and one byte more fails |
| Domain.SplitExt | apps/courses/models.py:29 | the name splits into stem and extension; the extension starts at the last dot of the last path component, and there is none when that dot leads the component |
| Domain.UploadPath | apps/courses/models.py:28-35 | the stored name lies in "syllabus/", opens with the course and school slugs each followed by a dash, continues with the first six characters of the id (all of it when shorter) and ends with the uploaded extension |
| Domain.UploadPathKeepsExtension | apps/courses/models.py:28-35 | the stored file keeps the extension it was uploaded with |
| Forms.CleanSyllabus | apps/courses/forms.py:26-34 | no file passes unchanged; a file over 3 MiB is refused with the form's message; any other file passes unchanged |
| Forms.SizeChecksAgree | apps/courses/forms.py:26-34 | the form's size check and the model's accept the same files |
| Forms.FormValid | apps/courses/models.py:49-65 | the form accepts a stripped name of 1..200 characters and a stripped description of at most 255, neither holding NUL, credits in 1..11, and a non-empty syllabus with a name of 1..255 characters, a `.pdf` suffix and at most 3 MiB |
| Forms.PdfNameIff | apps/courses/models.py:61 | a file name passes the extension check exactly when its last component has a dot after its first character followed by "pdf" in any case |
| Forms.PdfNameEnding | apps/courses/models.py:61 | a name that passes the extension check ends in a dot and "pdf" in any case, after at least one more character |
| Forms.DoubleDotPdfAccepted | apps/courses/models.py:61 | worked example: "..pdf" passes the extension check |
| Forms.HiddenPdfRefused | apps/courses/models.py:61 | worked example: ".pdf" has no suffix and fails the extension check |
| Forms.AcceptedFormFitsModel | apps/courses/models.py:49-64 | an accepted form saves a non-blank name of at most 200 characters and a description of at most 255 without NUL, and a syllabus of 1 byte to 3 MiB that the model's `clean` accepts, named with a ".pdf" ending in any case |
| Forms.SchemeEndAt | apps/courses/models.py:65 | the first colon, after an opening ASCII letter and only scheme characters, ends the link's scheme |
| Forms.CleanLinkShape | apps/courses/models.py:65 | a cleaned non-empty link has a lower-case scheme followed by "//" and ends with everything the link had after its own scheme; a link without a scheme gets "http", one with a scheme keeps it lower-cased |
| Forms.CleanLinkIdempotent | apps/courses/models.py:65 | cleaning a cleaned link changes nothing |
| Forms.BareLinkExample | apps/courses/models.py:65 | worked example: "wa.me/X" is saved as "http://wa.me/X" |
| Forms.UpperSchemeExample | apps/courses/models.py:65 | worked example: "HTTP:x" is saved as "http://x" |
| Forms.NewCourse | apps/courses/forms.py:8 | a new course takes the whitelisted fields from the form, its name and description stripped and its link stripped and completed to a full URL as the form cleans them, and the rest from the view |
| Forms.FormIgnoresPadding | apps/courses/models.py:49-50 | name and description are judged and saved stripped: whitespace around them changes neither acceptance nor the saved course, and a blank name is refused |
| Forms.FormCannotSetProtectedFields | apps/courses/forms.py:8 | no submission can set the code, group, minimum, status, pending nominee or embedding, which start empty |
| Matching.CompatibleClearsThreshold | apps/courses/services.py:285-297 | every compatible group scores above 0.679, so above the 0.65 threshold |
| Matching.CompatibilityExamples | apps/courses/services.py:285-292 | worked example: 0.85 with 0.40 is compatible and scores 0.715; 0.80 with 0.50 is not compatible |
| Matching.CandidatesFrom | apps/courses/services.py:258-260 | the candidate groups are exactly those holding a course with the same credits, each once, in ascending order |
| Matching.WithCentroid | apps/courses/services.py:270-271 | the groups skipped are exactly those with no course that has an embedding |
| Matching.MaxJaccard | apps/courses/services.py:276-283 | the best lexical similarity to the group's other courses: at least each of them, equal to one of them or 0, within [0, 1] |
| Matching.SelectIsFirstBest | apps/courses/services.py:285-295 | a candidate is chosen exactly when one is compatible; it has the highest hybrid score, above 0.65, and any earlier compatible candidate scores strictly less |
| Matching.Prepare | apps/courses/services.py:228-252 | a filled cache is kept; an empty one is filled from the syllabus; credits are overwritten only by extracted credits above 0; a missing embedding is computed |
| Matching.PrepareKeepsCreditsInRange | apps/courses/services.py:235-238 | preparation keeps the credits within 1..11 |
| Matching.CreateGroup | apps/courses/services.py:309-316 | a new group named after the course, described by its code or "sistema", with the course's school only; the course joins it; nothing else changes |
| Matching.AssignGroup | apps/courses/services.py:297-302 | the course joins the group, the group gains the course's school, and every other group is unchanged |
| Matching.Process | apps/courses/services.py:225-306 | a course that cannot be read is left as it was; without the embedding model a new group is always founded; a match never adds a group; with the model, the run raises exactly when the comparison meets an empty embedding, and then only the prepared course is saved; otherwise the course ends in a group |
| Matching.Compare | apps/courses/services.py:262-274 | the comparison raises, saving nothing more, exactly when an evaluated group has a course with an empty embedding or the course's own embedding is empty |
| Matching.FoundingWithoutModelLeavesEmptyMember | apps/courses/services.py:248-256 | without the embedding model a course with no embedding founds a group whose member has an empty embedding, which later comparisons of the same credits evaluate |
| Matching.ProcessJoinsIffCompatible | apps/courses/services.py:254-306 | the course joins an existing group exactly when the embedding model is loaded, the comparison does not raise, and some group is compatible with the prepared course |
| Matching.CompareJoinsIffCompatible | apps/courses/services.py:269-306 | the comparison joins exactly when it does not raise and some group is compatible |
| Matching.ChosenIsFirstBest | apps/courses/services.py:285-302 | the group joined is compatible, scores at least as well as any compatible group, and strictly better than any compatible group with a smaller id |
| Matching.ProcessSteps | apps/courses/services.py:248-306 | a run either raises with only the prepared course saved, or founds a group, or joins the chosen group, on the store with the prepared course saved |
| Matching.ProcessFrame | apps/courses/services.py:225-316 | a run changes only the course's cache, credits, embedding and group, adds at most one group, and only adds schools to existing groups |
| Matching.ProcessKeepsInvariants | apps/courses/services.py:225-316 | a run keeps the schema constraints, enrolled roles and group coverage |
| Views.CheckLimits | apps/frontend/views.py:191-204 | a student may take a course exactly when the credits stay within 11 and they hold fewer than 2 courses; the credit cap is checked first |
| Views.Join | apps/frontend/views.py:168-208 | a student joins exactly when the course exists, they are not in it nor in a course of its group, and both caps hold; a refused join changes nothing; each refusal is reported in the source's order |
| Views.JoinTotals | apps/frontend/views.py:191-206 | a join adds exactly the course's credits and one course to the student, within the caps, and nothing to anybody else |
| Views.JoinKeepsInvariants | apps/frontend/views.py:168-208 | joining keeps the invariants |
| Views.JoinKeepsLimits | apps/frontend/views.py:191-204 | joining keeps every student within 11 credits and 2 courses |
| Views.EffectiveCredits | apps/frontend/views.py:131-132 | the syllabus's credits replace the declared ones only when above 0 |
| Views.EffectiveCreditsInRange | apps/frontend/views.py:131-132 | the effective credits lie in 1..11 |
| Views.CreateFromValidForm | apps/frontend/views.py:103-159 | once the form is accepted: the file, syllabus, duplicate, credit cap, course cap and school checks in order, each with its reply; a refusal changes nothing; success saves the course and enrolls its delegate |
| Views.CreateCourse | apps/frontend/views.py:98-159 | the checks in order (form, with name and description judged stripped, file, syllabus, duplicate content only when non-empty, credit cap, course cap, school), each with its reply and message; a refusal changes nothing; success saves the course and enrolls its delegate |
| Views.CreateCourseEffects | apps/frontend/views.py:127-151 | the saved course has the student as creator, their school, the extracted content as cache, the effective credits, no group, nominee or embedding, and the student is enrolled |
| Views.CreateCourseKeepsInvariants | apps/frontend/views.py:98-159 | proposing keeps the invariants |
| Views.CreateCourseKeepsLimits | apps/frontend/views.py:131-143 | proposing keeps every student within 11 credits and 2 courses |
| Views.Leave | apps/frontend/views.py:294-318 | the delegate deletes the course exactly when they are its only member and is refused otherwise; anybody else has a pending nomination cleared and their enrollment removed |
| Views.LeaveRemovesStudent | apps/frontend/views.py:294-318 | unless refused, the student is no longer enrolled, and a deleted course has no enrollments left |
| Views.LeaveGivesBackCredits | apps/frontend/views.py:313-316 | a student who leaves gives back exactly the course's credits and one course |
| Views.LeaveKeepsInvariants | apps/frontend/views.py:294-318 | leaving keeps the invariants, because the delegate never leaves a course that has other members |
| Views.LeaveKeepsLimits | apps/frontend/views.py:294-318 | leaving keeps every student within the limits |
| Views.Nominate | apps/frontend/views.py:322-338 | only the delegate may nominate, and only an enrolled user; the nomination only sets the pending nominee |
| Views.NomineeChoices | apps/frontend/views.py:340 | the nominees offered are the course's members other than the delegate |
| Views.Respond | apps/frontend/views.py:346-365 | only the pending nominee may answer; "aceptar" makes them delegate and clears the nomination; "rechazar" clears it; any other answer changes nothing |
| Views.DelegateChangesOnlyByAcceptance | apps/frontend/views.py:322-365 | a course's delegate changes only when its pending nominee accepts, and becomes that nominee |
| Views.NominateKeepsInvariants | apps/frontend/views.py:322-338 | nominating keeps the invariants |
| Views.RespondKeepsInvariants | apps/frontend/views.py:346-365 | answering keeps the invariants: the new delegate was enrolled |
| Views.HandOverKeepsLimits | apps/frontend/views.py:322-365 | nominating and answering keep every student within the limits |
| Views.UploadDocument | apps/frontend/views.py:369-382 | only the enrollment's own student may attach a document, and only a valid submission changes anything |
| Views.DeleteDocument | apps/frontend/views.py:386-398 | only the enrollment's own student may remove its document, and only an existing document is removed |
| Views.DocumentsOnlyByOwner | apps/frontend/views.py:369-398 | the document views change nothing but the document flag of the requester's own enrollment |
| Views.UploadKeepsInvariants | apps/frontend/views.py:369-382 | uploading keeps the invariants and the limits |
| Views.DeleteDocumentKeepsInvariants | apps/frontend/views.py:386-398 | removing a document keeps the invariants and the limits |
| Visibility.VisibleCourses | apps/frontend/views.py:62-64 | the courses visible from a school are exactly its own and those whose group includes it |
| Visibility.Dashboard | apps/frontend/views.py:57-60 | the dashboard is refused exactly to a student with an incomplete profile |
| Visibility.DashboardListsVisibleCourses | apps/frontend/views.py:71-85 | the dashboard lists exactly the visible courses, each marked enrolled and equivalent as the student's enrollments and school say |
| Visibility.DashboardOrder | apps/frontend/views.py:77 | enrolled courses come first, and the newest come first within each part |
| Visibility.CourseDetail | apps/frontend/views.py:226-290 | without a school the student is sent to onboarding; the page opens exactly for a visible course, with the student's enrollment and delegate role |
| Visibility.DetailAgreesWithDashboard | apps/frontend/views.py:234-244 | for a complete profile the detail page opens exactly for the courses the dashboard lists |
| Visibility.DetailNeedsOnlySchool | apps/frontend/views.py:229-230 | a student with a school but no code or phone is refused the dashboard but can open a visible course's page |
| Visibility.MaskSurname | apps/frontend/views.py:254-255 | a surname shows its first letter and four stars, an empty one four stars |
| Visibility.MaskCui | apps/frontend/views.py:257-260 | a student code of at least 4 characters shows four stars and its last four, a shorter one four stars |
| Visibility.MasksHideTheRest | apps/frontend/views.py:254-260 | surnames with the same initial, and codes with the same last four characters, are shown alike |
| Visibility.WhatsAppLink | apps/frontend/views.py:262-265 | a phone number gives "https://wa.me/51" followed by its digits only, and no number gives no link |
| Visibility.WhatsAppLinkIgnoresSeparators | apps/frontend/views.py:264-265 | separators in a phone number do not change its link |
| Visibility.Roster | apps/frontend/views.py:246-279 | one row per enrollment of the course, oldest first, each marking the viewer's own row and the delegate's |
| Visibility.RosterListsMembers | apps/frontend/views.py:246-279 | the roster lists each member exactly once, in enrollment order |
| Visibility.RosterHasOneDelegate | apps/frontend/views.py:275 | exactly one row is the delegate's |
| Visibility.ProcessKeepsVisibility | apps/courses/services.py:297-316 | matching never hides a course that was visible |
| Visibility.JoinedCourseVisibleToGroup | apps/courses/services.py:297-316 | after matching, the course is in a group unless the comparison raised, when it keeps the group it had; a grouped course is visible from every school of its group |
| Adapters.PreSocialLogin | apps/users/adapters.py:13-23 | a login passes exactly when the address is non-empty and ends with "@unsa.edu.pe", case-sensitively; otherwise it is sent back to the Google login |
| Adapters.InstitutionalAddressesPass | apps/users/adapters.py:16 | every institutional address passes, whatever its local part |
| Adapters.PassingAddressesAreInstitutional | apps/users/adapters.py:16 | only institutional addresses pass |
| Adapters.CapitalDomainRefused | apps/users/adapters.py:16 | any address ending in the domain written in capitals is refused |
| Adapters.IsOpenForSignup | apps/users/adapters.py:25-26 | sign-up is always open |
| Adapters.SignupDecidedByGate | apps/users/adapters.py:13-26 | an account is created exactly when the address passes the login gate |
| Adapters.LoginRedirect | apps/users/adapters.py:45-51 | a student goes to onboarding exactly when the school, student code or phone is missing |
| Adapters.LoginLandsOnServingPage | apps/users/adapters.py:45-51 | login sends a student to the dashboard exactly when the dashboard serves them, and agrees with onboarding's own guard |
| Adapters.OnboardingEntry | apps/frontend/views.py:19-20 | onboarding sends a student to the dashboard exactly when the profile is complete |
| Lifecycle.ProcessKeepsCredits | apps/courses/services.py:235-238 | matching a course whose credits already agree with its syllabus changes no course's credits |
| Lifecycle.ProcessKeepsLimits | apps/courses/services.py:225-306 | matching such a course keeps every student within 11 credits and 2 courses |
| Lifecycle.ProposalThenMatchingKeepsLimits | apps/frontend/views.py:98-154 | a proposal followed by its matching keeps the invariants and the limits |

## Left out

- Reading the PDF (`leer_pdf_agnostico`): the text it yields is an input, and an empty text stands for a file that could not be read.
- The machine-learning models are the parameters in `Matching.Models`: whether each one loaded, the language model's tokens, the embedding, and the cosine similarity of the course to each group's centroid. The models themselves, `generar_embedding`'s whitespace collapsing and 2000-character cut, the numeric mean of the centroid, and the exception path around the PDF read are not part of this model.
- Matching.ComparisonRaises: covers the errors an empty embedding causes (a centroid over vectors of different lengths, or a cosine similarity of a vector with no components). Non-empty embeddings of different lengths would raise too; they are assumed not to occur, since one model produces them all.
- Matching.Process: a raising run is one outcome. The background task (apps/courses/tasks.py:26-29) retries it twice, but each retry reads the saved course back and meets the same empty embedding, so it raises again.
- Forms.NewCourse: a blank description or link is stored as the empty string, where Django stores NULL for the nullable fields.
- Forms.NewCourse: the link is cleaned as Django 5's `URLField` does with its assumed scheme "http" (Django 6 assumes "https"), on Python 3.11 or later. The rest of `urlsplit`/`urlunsplit` is not modelled: dropping an empty "?" or "#", removing tabs and line ends, stripping leading control characters, raising on a malformed host, and leaving out "//" for a scheme outside the web ones with nothing after it. Only links the URL validator would refuse reach the last case.
- Forms.FormValid: the file suffix follows `PurePath.suffix` before Python 3.14. Python 3.14 also gives a name ending in a dot a suffix.
- Floating point: scores, thresholds and the Jaccard quotient are exact reals. `progreso_porcentaje` divides in floating point before truncating, so 29 of 100 can give 28; the model's integer division gives 29.
- Domain.Progress: states the exact whole-percent value, not the floating-point one, for the reason above.
- Case folding covers ASCII and the Latin-1 capitals only; `\d` and `isdigit` are the ASCII digits only. Python's full Unicode tables are not part of this model.
- The URL validator and the 200-character limit of the link field: the form also refuses links they reject, which the model accepts.
- The first `leave_course_view` (apps/frontend/views.py:212): the second definition rebinds the name, so it is never reached.
- Celery tasks, signals, admin, URL routing, templates, `messages`, and the GET branches that only render.
- The onboarding form's POST branch. Only its entry guard is modelled, as `Adapters.OnboardingEntry`.
- The document form's validation: `Views.UploadDocument` takes a valid submission as its `submitted` parameter.
- `authentication_error`, which does nothing.
- Identifiers: course and enrollment ids are counters, not UUIDs. Groups are numbered by position, and candidate groups are visited in that order. The database's own order for `posibles_grupos` is unspecified.
- Views.Leave: removes every enrollment of the student in the course, where the source deletes `.first()`; the two agree because enrollments are unique.
- Concurrency between the background matcher and the views is not modelled: each runs as one atomic transition.
