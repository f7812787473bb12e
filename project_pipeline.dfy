/**
 * The server's project pipeline: users with credit balances, website projects, the append-only
 * log of generated code versions and the conversation trail, and the request handlers and
 * background completions that move them (createUserProject, makeRevision, rollbackToVersion,
 * deleteProject, getProjectPreview, processProjectInBackground, processRevisionInBackground).
 */
module ProjectPipeline {
  import opened Wrappers
  import opened Text
  import opened Accounts

  type ProjectId = nat
  type VersionId = nat

  /** Every generation or revision attempt costs this many credits. */
  const GenerationCost := 5
  /** The longest project name; longer prompts are cut and given an ellipsis. */
  const MaxNameLength := 50
  /** The code-fence delimiter the sanitiser removes. */
  const Fence := "```"

  const InitialDescription := "Initial version"
  const RevisionDescription := "Revision"
  const RollbackNote := "Website rolled back successfully."

  // The system instructions of the four language-model calls.
  const EnhanceWebsiteInstruction := "Enhance website prompt clearly."
  const HtmlOnlyInstruction := "Return ONLY valid HTML."
  const EnhanceRevisionInstruction := "Enhance revision request."
  const UpdatedHtmlInstruction := "Return updated HTML only."

  // HTTP statuses of the synchronous rejections.
  const BadRequest := 400
  const Unauthorized := 401
  const InsufficientCredits := 403
  const NotFound := 404
  const InternalError := 500

  datatype Project = Project(
    name: string,
    initialPrompt: string,
    userId: UserId,
    currentCode: Option<string>,            // None while the first generation is pending
    currentVersionIndex: Option<VersionId>)

  datatype Version = Version(id: VersionId, code: string, description: string, projectId: ProjectId)

  datatype Role = UserRole | AssistantRole

  datatype Conversation = Conversation(role: Role, content: string, projectId: ProjectId)

  /** A field of a JSON request body: absent, a string, or another JSON value with its truthiness. */
  datatype BodyValue = Absent | Str(s: string) | NonString(truthy: bool)

  /** The reply of a handler: its JSON body, or an error status. */
  datatype Response<T> = Success(body: T) | Failure(status: nat)

  /** One call of the language model: it threw, or it returned `choices[0].message.content`, possibly null. */
  datatype Completion = Threw | Returned(content: Option<string>)

  /** The language model as the pipeline sees it: a system instruction and a user message in, a completion out. */
  type Model = (string, string) -> Completion

  /* ---------------------------------------------------------------- name and sanitiser */

  /** The project name derived from the initial prompt. */
  function ProjectName(prompt: string): (name: string)
    ensures |name| <= MaxNameLength
    ensures |prompt| <= MaxNameLength ==> name == prompt
    ensures |prompt| > MaxNameLength ==> name == prompt[..MaxNameLength - 3] + "..."
  {
    if |prompt| > 50 then prompt[..47] + "..." else prompt
  }

  /** No code fence occurs anywhere in `s`. */
  predicate FenceFree(s: string) {
    forall j :: 0 <= j <= |s| ==> !OccursAt(s, Fence, j)
  }

  /** `code.replace(/```/g, "").trim()`. */
  function Sanitise(code: string): (clean: string)
    ensures !Contains(clean, Fence)
    ensures IsTrimmed(clean)
  {
    RemovedFencesAreGone(code);
    TrimKeepsFenceFree(RemoveAll(code, Fence));
    Trim(RemoveAll(code, Fence))
  }

  /** Trimming fence-free text leaves it fence-free. */
  lemma TrimKeepsFenceFree(s: string)
    requires FenceFree(s)
    ensures FenceFree(Trim(s))
    ensures !Contains(Trim(s), Fence)
  {
    TrimStartKeepsFenceFree(s);
    TrimEndKeepsFenceFree(TrimStart(s));
    FenceFreeIsNotContained(Trim(s));
  }

  lemma {:induction false} TrimStartKeepsFenceFree(s: string)
    requires FenceFree(s)
    ensures FenceFree(TrimStart(s))
  {
    if s != [] && IsWhitespace(s[0]) {
      FenceFreeSlice(s, 1, |s|, s[1..]);
      TrimStartKeepsFenceFree(s[1..]);
    }
  }

  lemma {:induction false} TrimEndKeepsFenceFree(s: string)
    requires FenceFree(s)
    ensures FenceFree(TrimEnd(s))
  {
    if s != [] && IsWhitespace(s[|s| - 1]) {
      FenceFreeSlice(s, 0, |s| - 1, s[..|s| - 1]);
      TrimEndKeepsFenceFree(s[..|s| - 1]);
    }
  }

  /** Fence-free text does not contain a fence. */
  lemma FenceFreeIsNotContained(t: string)
    requires FenceFree(t)
    ensures !Contains(t, Fence)
  {
  }

  /** If what is left after removing fences starts with a backtick, so did the input. */
  lemma LeadingBacktick(s: string)
    ensures RemoveAll(s, Fence) != [] && RemoveAll(s, Fence)[0] == '`' ==> s != [] && s[0] == '`'
  {
    if s != [] && StartsWith(s, Fence) {
      assert s[..3][0] == s[0];
    }
  }

  /** When `s` does not start with a fence, keeping its first character cannot open a new fence. */
  lemma NoFenceAtFront(s: string)
    requires s != [] && !StartsWith(s, Fence)
    ensures !OccursAt([s[0]] + RemoveAll(s[1..], Fence), Fence, 0)
  {
    var t := s[1..];
    var out := [s[0]] + RemoveAll(t, Fence);
    if |out| >= 3 {
      if s[0] != '`' {
        assert out[..3][0] != Fence[0];
      } else {
        assert t != [];
        assert !StartsWith(t, Fence) by {
          if |t| >= 3 {
            assert s[..3] == [s[0]] + t[..2];
          }
        }
        var u := t[1..];
        assert RemoveAll(t, Fence) == [t[0]] + RemoveAll(u, Fence);
        if t[0] != '`' {
          assert out[..3][1] != Fence[1];
        } else {
          LeadingBacktick(u);
          assert out[2] == RemoveAll(u, Fence)[0];
          assert out[2] != '`' by {
            if u != [] {
              assert s[..3] == [s[0], t[0], u[0]];
            }
          }
          assert out[..3][2] != Fence[2];
        }
      }
    }
  }

  /** Removing fences from left to right leaves none: the runs of backticks it leaves are at most two long. */
  lemma {:induction false} RemovedFencesAreGone(s: string)
    ensures FenceFree(RemoveAll(s, Fence))
    decreases |s|
  {
    if s == [] {
    } else if StartsWith(s, Fence) {
      RemovedFencesAreGone(s[3..]);
    } else {
      var t := s[1..];
      var out := RemoveAll(s, Fence);
      assert out == [s[0]] + RemoveAll(t, Fence);
      RemovedFencesAreGone(t);
      NoFenceAtFront(s);
      forall j | 0 <= j <= |out|
        ensures !OccursAt(out, Fence, j)
      {
        if 1 <= j && j + 3 <= |out| {
          assert !OccursAt(RemoveAll(t, Fence), Fence, j - 1);
          assert out[j..j + 3] == RemoveAll(t, Fence)[j - 1..j + 2];
        }
      }
    }
  }

  /** A slice of fence-free text is fence-free. */
  lemma FenceFreeSlice(s: string, a: nat, b: nat, t: string)
    requires a <= b <= |s| && t == s[a..b]
    requires FenceFree(s)
    ensures FenceFree(t)
  {
    forall j | 0 <= j <= b - a
      ensures !OccursAt(s[a..b], Fence, j)
    {
      assert !OccursAt(s, Fence, a + j);
      if j + 3 <= b - a {
        assert s[a..b][j..j + 3] == [s[a + j], s[a + j + 1], s[a + j + 2]] == s[a + j..a + j + 3];
      }
    }
  }

  /** Removing fences from fence-free text changes nothing. */
  lemma {:induction false} FenceFreeUnchanged(s: string)
    requires FenceFree(s)
    ensures RemoveAll(s, Fence) == s
    decreases |s|
  {
    if s != [] {
      assert !OccursAt(s, Fence, 0);
      FenceFreeSlice(s, 1, |s|, s[1..]);
      FenceFreeUnchanged(s[1..]);
    }
  }

  /** Sanitising is idempotent: sanitised code is a fixed point of the sanitiser. */
  lemma SanitiseIdempotent(code: string)
    ensures Sanitise(Sanitise(code)) == Sanitise(code)
  {
    var clean := Sanitise(code);
    FenceFreeUnchanged(clean);
    TrimmedIsFixed(clean);
  }

  /** Removing fences from text that starts with backtick-free text keeps that text in front. */
  lemma {:induction false} RemoveAllBacktickFree(x: string, z: string)
    requires '`' !in x
    ensures RemoveAll(x + z, Fence) == x + RemoveAll(z, Fence)
    decreases |x|
  {
    if x != [] {
      assert (x + z)[0] == x[0];
      assert !StartsWith(x + z, Fence) by {
        if |x + z| >= 3 {
          assert (x + z)[..3][0] == x[0];
        }
      }
      assert (x + z)[1..] == x[1..] + z;
      RemoveAllBacktickFree(x[1..], z);
    } else {
      assert x + z == z;
    }
  }

  /** Removing fences from text that ends with backtick-free text keeps that text at the back. */
  lemma {:induction false} RemoveAllBacktickFreeTail(y: string, z: string)
    requires '`' !in z
    ensures RemoveAll(y + z, Fence) == RemoveAll(y, Fence) + z
    decreases |y|
  {
    if y == [] {
      assert y + z == z && z + [] == z;
      RemoveAllBacktickFree(z, []);
    } else if StartsWith(y + z, Fence) {
      assert (y + z)[2] == (y + z)[..3][2] == '`';
      assert |y| >= 3;
      assert y[..3] == (y + z)[..3];
      assert (y + z)[3..] == y[3..] + z;
      RemoveAllBacktickFreeTail(y[3..], z);
    } else {
      assert !StartsWith(y, Fence) by {
        if |y| >= 3 {
          assert (y + z)[..3] == y[..3];
        }
      }
      assert (y + z)[0] == y[0];
      assert (y + z)[1..] == y[1..] + z;
      RemoveAllBacktickFreeTail(y[1..], z);
      ConsAssoc(y[0], RemoveAll(y[1..], Fence), z);
    }
  }

  /** Sanitising ignores leading whitespace: it commutes with `trimStart`. */
  lemma {:induction false} SanitiseTrimStart(x: string)
    ensures Sanitise(TrimStart(x)) == Sanitise(x)
    decreases |x|
  {
    if x != [] && IsWhitespace(x[0]) {
      assert x[0] != '`';
      assert !StartsWith(x, Fence) by {
        if |x| >= 3 {
          assert x[..3][0] == x[0];
        }
      }
      TrimDropsLeadingWhitespace(x[0], RemoveAll(x[1..], Fence));
      SanitiseTrimStart(x[1..]);
    }
  }

  /** Sanitising ignores trailing whitespace: it commutes with `trimEnd`. */
  lemma {:induction false} SanitiseTrimEnd(x: string)
    ensures Sanitise(TrimEnd(x)) == Sanitise(x)
    decreases |x|
  {
    if x != [] && IsWhitespace(x[|x| - 1]) {
      var y, c := x[..|x| - 1], x[|x| - 1];
      assert x == y + [c];
      assert c != '`';
      RemoveAllBacktickFreeTail(y, [c]);
      TrimDropsTrailingWhitespace(RemoveAll(y, Fence), c);
      SanitiseTrimEnd(y);
    }
  }

  /** The sanitiser ignores whitespace around the code: trimming before sanitising changes nothing. */
  lemma SanitiseTrim(x: string)
    ensures Sanitise(Trim(x)) == Sanitise(x)
  {
    SanitiseTrimEnd(TrimStart(x));
    SanitiseTrimStart(x);
  }

  /** The sanitiser removes the fence characters only: a language tag after the opening fence stays in the code. */
  lemma SanitiseKeepsLanguageTag(tag: string, body: string)
    requires tag != [] && !IsWhitespace(tag[0])
    requires body != [] && !IsWhitespace(body[|body| - 1])
    requires '`' !in tag && '`' !in body
    ensures Sanitise(Fence + tag + "\n" + body + "\n" + Fence) == tag + "\n" + body
  {
    var kept := tag + "\n" + body;
    var x := kept + "\n";
    assert '`' !in x;
    var fenced := Fence + tag + "\n" + body + "\n" + Fence;
    assert fenced == Fence + (x + Fence);
    DropLeadingFence(x + Fence);
    RemoveAllBacktickFree(x, Fence);
    DropLeadingFence([]);
    assert Fence + [] == Fence;
    assert x + [] == x;
    assert RemoveAll(fenced, Fence) == x;
    TrimDropsNewline(kept);
    assert Sanitise(fenced) == Trim(x);
  }

  /** A leading fence is dropped whole. */
  lemma DropLeadingFence(y: string)
    ensures RemoveAll(Fence + y, Fence) == RemoveAll(y, Fence)
  {
    assert StartsWith(Fence + y, Fence);
    assert (Fence + y)[3..] == y;
  }

  /** Trimming text with non-blank ends and one trailing newline drops just the newline. */
  lemma TrimDropsNewline(kept: string)
    requires kept != [] && !IsWhitespace(kept[0]) && !IsWhitespace(kept[|kept| - 1])
    ensures Trim(kept + "\n") == kept
  {
    var x := kept + "\n";
    assert TrimStart(x) == x;
    assert x[..|x| - 1] == kept;
    assert TrimEnd(kept) == kept;
  }

  /* ---------------------------------------------------------------- the generation pipeline */

  /** `content || fallback`: the enhanced prompt, or the raw text when the model returned nothing usable. */
  function Enhanced(content: Option<string>, fallback: string): string {
    if content.Some? && content.value != "" then content.value else fallback
  }

  /** The code a code-generation completion yields: its content trimmed, refused when that is empty,
    * then sanitised. `None` is the background run's failure. */
  function GeneratedCode(res: Completion): (code: Option<string>)
    ensures code.None? <==> res.Threw? || res.content.None? || IsBlank(res.content.value)
    ensures code.Some? ==> code.value == Sanitise(res.content.value)
    ensures code.Some? ==> !Contains(code.value, Fence) && IsTrimmed(code.value)
  {
    if res.Threw? || res.content.None? then None
    else
      SanitiseTrim(res.content.value);
      var trimmed := Trim(res.content.value);
      if trimmed == "" then None else Some(Sanitise(trimmed))
  }

  const CodeLabel := "Current code: "
  const ChangeLabel := "\nChange: "

  /** The user message of the revision call: the current code and the requested change, each
    * recoverable from its place after its label. */
  function RevisionRequest(currentCode: string, change: string): (r: string)
    ensures |r| == |CodeLabel| + |currentCode| + |ChangeLabel| + |change|
    ensures StartsWith(r, CodeLabel)
    ensures r[|CodeLabel|..|CodeLabel| + |currentCode|] == currentCode
    ensures r[|CodeLabel| + |currentCode|..|r| - |change|] == ChangeLabel
    ensures r[|r| - |change|..] == change
  {
    var r := CodeLabel + currentCode + ChangeLabel + change;
    assert r[..|CodeLabel|] == CodeLabel;
    r
  }

  /** What an initial generation commits: enhance the prompt, then generate from it. */
  function InitialGeneration(model: Model, prompt: string): (code: Option<string>)
    ensures model(EnhanceWebsiteInstruction, prompt).Threw? ==> code.None?
    ensures var enhance := model(EnhanceWebsiteInstruction, prompt);
      !enhance.Threw? ==>
        var res := model(HtmlOnlyInstruction, Enhanced(enhance.content, prompt));
        && (code.None? <==> res.Threw? || res.content.None? || IsBlank(res.content.value))
        && (code.Some? ==> code.value == Sanitise(res.content.value))
    ensures code.Some? ==> !Contains(code.value, Fence) && IsTrimmed(code.value)
  {
    var enhance := model(EnhanceWebsiteInstruction, prompt);
    if enhance.Threw? then None
    else GeneratedCode(model(HtmlOnlyInstruction, Enhanced(enhance.content, prompt)))
  }

  /** What a revision commits: enhance the message, then regenerate from the project's current code. */
  function RevisionGeneration(model: Model, message: string, currentCode: Option<string>): (code: Option<string>)
    ensures model(EnhanceRevisionInstruction, message).Threw? ==> code.None?
    ensures currentCode.None? || currentCode == Some("") ==> code.None?
    ensures var enhance := model(EnhanceRevisionInstruction, message);
      !enhance.Threw? && currentCode.Some? && currentCode.value != "" ==>
        var res := model(UpdatedHtmlInstruction, RevisionRequest(currentCode.value, Enhanced(enhance.content, message)));
        && (code.None? <==> res.Threw? || res.content.None? || IsBlank(res.content.value))
        && (code.Some? ==> code.value == Sanitise(res.content.value))
    ensures code.Some? ==> !Contains(code.value, Fence) && IsTrimmed(code.value)
  {
    var enhance := model(EnhanceRevisionInstruction, message);
    if enhance.Threw? || currentCode.None? || currentCode.value == "" then None
    else GeneratedCode(model(UpdatedHtmlInstruction, RevisionRequest(currentCode.value, Enhanced(enhance.content, message))))
  }

  /** An empty enhancement is replaced by the raw prompt: generation then works from the prompt itself. */
  lemma EmptyEnhancementUsesPrompt(model: Model, prompt: string)
    requires model(EnhanceWebsiteInstruction, prompt) in {Returned(None), Returned(Some(""))}
    ensures InitialGeneration(model, prompt) == GeneratedCode(model(HtmlOnlyInstruction, prompt))
  {
  }

  /** An empty enhancement of a revision is replaced by the raw message. */
  lemma EmptyEnhancementUsesMessage(model: Model, message: string, currentCode: string)
    requires model(EnhanceRevisionInstruction, message) in {Returned(None), Returned(Some(""))}
    requires currentCode != ""
    ensures RevisionGeneration(model, message, Some(currentCode))
         == GeneratedCode(model(UpdatedHtmlInstruction, RevisionRequest(currentCode, message)))
  {
  }

  /* ---------------------------------------------------------------- the version log */

  /** Version `v` is the one of project `pid` with id `vid`. */
  predicate IsVersion(v: Version, pid: ProjectId, vid: VersionId) {
    v.projectId == pid && v.id == vid
  }

  /** `project.versions.find(v => v.id === vid)`: the first version of project `pid` with id `vid`. */
  function FindVersion(vs: seq<Version>, pid: ProjectId, vid: VersionId): (r: Option<Version>)
    ensures r.Some? ==> r.value in vs && r.value.projectId == pid && r.value.id == vid
    ensures r.None? <==> forall i :: 0 <= i < |vs| ==> !(vs[i].projectId == pid && vs[i].id == vid)
    ensures forall i {:trigger IsVersion(vs[i], pid, vid)} ::
              0 <= i < |vs| && IsVersion(vs[i], pid, vid)
              && (forall j {:trigger IsVersion(vs[j], pid, vid)} :: 0 <= j < i ==> !IsVersion(vs[j], pid, vid))
              ==> r == Some(vs[i])
  {
    if vs == [] then None
    else if IsVersion(vs[0], pid, vid) then Some(vs[0])
    else
      assert forall i :: 1 <= i < |vs| ==> vs[1..][i - 1] == vs[i];
      FindVersion(vs[1..], pid, vid)
  }

  /** Appending to the log does not change which version an existing id finds. */
  lemma {:induction false} FindVersionAppend(vs: seq<Version>, v: Version, pid: ProjectId, vid: VersionId)
    ensures FindVersion(vs + [v], pid, vid)
         == if FindVersion(vs, pid, vid).Some? then FindVersion(vs, pid, vid)
            else if v.projectId == pid && v.id == vid then Some(v) else None
  {
    if vs != [] {
      assert (vs + [v])[1..] == vs[1..] + [v];
      FindVersionAppend(vs[1..], v, pid, vid);
    }
  }

  /** The log `vs` with the versions of project `pid` removed, in order. */
  function VersionsWithout(vs: seq<Version>, pid: ProjectId): (r: seq<Version>)
    ensures forall v :: v in r <==> v in vs && v.projectId != pid
    ensures forall v :: multiset(r)[v] == if v.projectId == pid then 0 else multiset(vs)[v]
  {
    if vs == [] then []
    else
      assert vs == [vs[0]] + vs[1..];
      (if vs[0].projectId == pid then [] else [vs[0]]) + VersionsWithout(vs[1..], pid)
  }

  /** Putting an element in front of a concatenation is putting it in front of its first part. */
  lemma ConsAssoc<T>(h: T, x: seq<T>, y: seq<T>)
    ensures [h] + (x + y) == ([h] + x) + y
  {
  }

  /** The cascade keeps the order of the log: filtering a concatenation filters each part. */
  lemma {:induction false} VersionsWithoutConcat(a: seq<Version>, b: seq<Version>, pid: ProjectId)
    ensures VersionsWithout(a + b, pid) == VersionsWithout(a, pid) + VersionsWithout(b, pid)
  {
    if a == [] {
      assert a + b == b;
    } else {
      assert (a + b)[0] == a[0] && (a + b)[1..] == a[1..] + b;
      VersionsWithoutConcat(a[1..], b, pid);
      if a[0].projectId == pid {
        assert VersionsWithout(a + b, pid) == VersionsWithout(a[1..] + b, pid);
        assert VersionsWithout(a, pid) == VersionsWithout(a[1..], pid);
      } else {
        var x, y := VersionsWithout(a[1..], pid), VersionsWithout(b, pid);
        assert VersionsWithout(a + b, pid) == [a[0]] + (x + y);
        assert VersionsWithout(a, pid) == [a[0]] + x;
        ConsAssoc(a[0], x, y);
      }
    }
  }


  /** Removing another project's versions does not change what a lookup in this project finds. */
  lemma {:induction false} FindVersionWithout(vs: seq<Version>, gone: ProjectId, pid: ProjectId, vid: VersionId)
    requires gone != pid
    ensures FindVersion(VersionsWithout(vs, gone), pid, vid) == FindVersion(vs, pid, vid)
  {
    if vs != [] {
      FindVersionWithout(vs[1..], gone, pid, vid);
      if vs[0].projectId == gone {
        assert VersionsWithout(vs, gone) == VersionsWithout(vs[1..], gone);
      } else {
        assert VersionsWithout(vs, gone) == [vs[0]] + VersionsWithout(vs[1..], gone);
        assert ([vs[0]] + VersionsWithout(vs[1..], gone))[1..] == VersionsWithout(vs[1..], gone);
      }
    }
  }

  /** The conversation trail with the entries of project `pid` removed, in order. */
  function ConversationsWithout(cs: seq<Conversation>, pid: ProjectId): (r: seq<Conversation>)
    ensures forall c :: c in r <==> c in cs && c.projectId != pid
    ensures forall c :: multiset(r)[c] == if c.projectId == pid then 0 else multiset(cs)[c]
  {
    if cs == [] then []
    else
      assert cs == [cs[0]] + cs[1..];
      (if cs[0].projectId == pid then [] else [cs[0]]) + ConversationsWithout(cs[1..], pid)
  }

  /** The cascade keeps the order of the trail: filtering a concatenation filters each part. */
  lemma {:induction false} ConversationsWithoutConcat(a: seq<Conversation>, b: seq<Conversation>, pid: ProjectId)
    ensures ConversationsWithout(a + b, pid) == ConversationsWithout(a, pid) + ConversationsWithout(b, pid)
  {
    if a == [] {
      assert a + b == b;
    } else {
      assert (a + b)[0] == a[0] && (a + b)[1..] == a[1..] + b;
      ConversationsWithoutConcat(a[1..], b, pid);
      if a[0].projectId == pid {
        assert ConversationsWithout(a + b, pid) == ConversationsWithout(a[1..] + b, pid);
        assert ConversationsWithout(a, pid) == ConversationsWithout(a[1..], pid);
      } else {
        var x, y := ConversationsWithout(a[1..], pid), ConversationsWithout(b, pid);
        assert ConversationsWithout(a + b, pid) == [a[0]] + (x + y);
        assert ConversationsWithout(a, pid) == [a[0]] + x;
        ConsAssoc(a[0], x, y);
      }
    }
  }


  /** The project's pointer names a version of its own in the log, and its code is that version's code;
    * before the first commit both are empty. */
  predicate PointsIntoLog(p: Project, pid: ProjectId, vs: seq<Version>) {
    match p.currentVersionIndex
    case None => p.currentCode.None?
    case Some(vid) => FindVersion(vs, pid, vid).Some? && p.currentCode == Some(FindVersion(vs, pid, vid).value.code)
  }

  /** The user exists and holds enough credits for one attempt (`!user || user.credits < 5` fails). */
  predicate CanAfford(users: map<UserId, User>, id: UserId) {
    id in users && users[id].credits >= GenerationCost
  }

  /** The `{ id, userId }` lookup: the project exists and belongs to the user. */
  predicate Owns(projects: map<ProjectId, Project>, pid: ProjectId, id: UserId) {
    pid in projects && projects[pid].userId == id
  }

  /** `initial_prompt` is a non-empty string. */
  predicate ValidPrompt(prompt: BodyValue) {
    prompt.Str? && prompt.s != ""
  }

  /** `message.trim()` throws: the message is truthy but not a string. */
  predicate MessageThrows(message: BodyValue) {
    message.NonString? && message.truthy
  }

  /** `message` is a string that is not empty or blank. */
  predicate ValidMessage(message: BodyValue) {
    message.Str? && !IsBlank(message.s)
  }

  /** The guard chain of `makeRevision` on the rows it reads: the status it rejects with, in the
    * handler's order, or `None` when the revision is accepted. */
  function RevisionRejection(users: map<UserId, User>, projects: map<ProjectId, Project>, userId: UserId,
                             projectId: ProjectId, message: BodyValue): (rejection: Option<nat>)
    ensures userId == "" ==> rejection == Some(Unauthorized)
    ensures userId != "" && MessageThrows(message) ==> rejection == Some(InternalError)
    ensures userId != "" && !MessageThrows(message) && !ValidMessage(message) ==> rejection == Some(BadRequest)
    ensures userId != "" && ValidMessage(message) && !CanAfford(users, userId) ==> rejection == Some(InsufficientCredits)
    ensures userId != "" && ValidMessage(message) && CanAfford(users, userId) && !Owns(projects, projectId, userId)
            ==> rejection == Some(NotFound)
    ensures rejection.None? <==> userId != "" && ValidMessage(message) && CanAfford(users, userId) && Owns(projects, projectId, userId)
  {
    if userId == "" then Some(Unauthorized)
    else match message
      case Absent => Some(BadRequest)
      // a falsy value fails the `!message` test; a truthy one has no `trim` and the handler throws
      case NonString(truthy) => if truthy then Some(InternalError) else Some(BadRequest)
      case Str(text) =>
        if text == "" || Trim(text) == "" then Some(BadRequest)
        else if userId !in users || users[userId].credits < GenerationCost then Some(InsufficientCredits)
        else if projectId !in projects || projects[projectId].userId != userId then Some(NotFound)
        else None
  }

  /* ---------------------------------------------------------------- the store and the handlers */

  /** The store invariant on the rows themselves: fresh identifiers lie above every one in use,
    * every version and conversation entry belongs to a project, every project's pointer is
    * consistent with the log, and no balance is negative. */
  ghost predicate Consistent(users: map<UserId, User>, projects: map<ProjectId, Project>, versions: seq<Version>,
                             conversations: seq<Conversation>, nextProjectId: ProjectId, nextVersionId: VersionId)
  {
    && (forall pid :: pid in projects ==> pid < nextProjectId)
    && (forall v :: v in versions ==> v.id < nextVersionId && v.projectId in projects)
    && (forall c :: c in conversations ==> c.projectId in projects)
    && (forall pid :: pid in projects ==> PointsIntoLog(projects[pid], pid, versions))
    && (forall id :: id in users ==> users[id].credits >= 0)
  }

  /** An accepted revision keeps the store consistent: a debit the balance covers and one more entry
    * for an existing project. */
  lemma RevisionKeepsConsistent(users: map<UserId, User>, projects: map<ProjectId, Project>, versions: seq<Version>,
                                conversations: seq<Conversation>, nextProjectId: ProjectId, nextVersionId: VersionId,
                                userId: UserId, projectId: ProjectId, text: string)
    requires Consistent(users, projects, versions, conversations, nextProjectId, nextVersionId)
    requires CanAfford(users, userId) && projectId in projects
    ensures Consistent(AddCredits(users, userId, -GenerationCost), projects, versions,
                       conversations + [Conversation(UserRole, text, projectId)], nextProjectId, nextVersionId)
  {
  }

  /** Deleting a project together with its versions and conversation entries keeps the store
    * consistent: every remaining pointer still finds its version. */
  lemma DeleteKeepsConsistent(users: map<UserId, User>, projects: map<ProjectId, Project>, versions: seq<Version>,
                              conversations: seq<Conversation>, nextProjectId: ProjectId, nextVersionId: VersionId,
                              projectId: ProjectId)
    requires Consistent(users, projects, versions, conversations, nextProjectId, nextVersionId)
    ensures Consistent(users, projects - {projectId}, VersionsWithout(versions, projectId),
                       ConversationsWithout(conversations, projectId), nextProjectId, nextVersionId)
  {
    DeleteKeepsVersionsOwned(projects, versions, nextVersionId, projectId);
    DeleteKeepsEntriesOwned(projects, conversations, projectId);
    DeleteKeepsPointers(projects, versions, projectId);
  }

  /** After the cascade every version left has a fresh-bounded id and belongs to a remaining project. */
  lemma DeleteKeepsVersionsOwned(projects: map<ProjectId, Project>, versions: seq<Version>, nextVersionId: VersionId,
                                 projectId: ProjectId)
    requires forall v :: v in versions ==> v.id < nextVersionId && v.projectId in projects
    ensures forall v :: v in VersionsWithout(versions, projectId) ==> v.id < nextVersionId && v.projectId in projects - {projectId}
  {
  }

  /** After the cascade every conversation entry left belongs to a remaining project. */
  lemma DeleteKeepsEntriesOwned(projects: map<ProjectId, Project>, conversations: seq<Conversation>, projectId: ProjectId)
    requires forall c :: c in conversations ==> c.projectId in projects
    ensures forall c :: c in ConversationsWithout(conversations, projectId) ==> c.projectId in projects - {projectId}
  {
  }

  /** After the cascade every remaining project's pointer still finds its own version. */
  lemma DeleteKeepsPointers(projects: map<ProjectId, Project>, versions: seq<Version>, projectId: ProjectId)
    requires forall pid :: pid in projects ==> PointsIntoLog(projects[pid], pid, versions)
    ensures var rest := projects - {projectId};
      forall pid :: pid in rest ==> PointsIntoLog(rest[pid], pid, VersionsWithout(versions, projectId))
  {
    var rest := projects - {projectId};
    forall pid | pid in rest
      ensures PointsIntoLog(rest[pid], pid, VersionsWithout(versions, projectId))
    {
      if rest[pid].currentVersionIndex.Some? {
        FindVersionWithout(versions, projectId, pid, rest[pid].currentVersionIndex.value);
      }
    }
  }

  class Store {
    var users: map<UserId, User>
    var projects: map<ProjectId, Project>
    var versions: seq<Version>
    var conversations: seq<Conversation>
    var nextProjectId: ProjectId
    var nextVersionId: VersionId

    /** Fresh identifiers lie above every one in use, every version and conversation entry belongs to
      * a project, every project's pointer is consistent with the log, and no balance is negative. */
    ghost predicate Valid()
      reads this
    {
      Consistent(users, projects, versions, conversations, nextProjectId, nextVersionId)
    }

    constructor (initialUsers: map<UserId, User>)
      requires forall id :: id in initialUsers ==> initialUsers[id].credits >= 0
      ensures Valid()
      ensures users == initialUsers && projects == map[] && versions == [] && conversations == []
    {
      users := initialUsers;
      projects := map[];
      versions := [];
      conversations := [];
      nextProjectId := 0;
      nextVersionId := 0;
    }

    /** `getProjectPreview`: the project, for its owner only. */
    function GetProjectPreview(userId: UserId, projectId: ProjectId): (r: Response<Project>)
      reads this
      ensures r.Success? <==> userId != "" && Owns(projects, projectId, userId)
      ensures r.Success? ==> r.body == projects[projectId]
      ensures r.Failure? ==> r.status == if userId == "" then Unauthorized else NotFound
    {
      if userId == "" then Failure(Unauthorized)
      else if projectId in projects && projects[projectId].userId == userId then Success(projects[projectId])
      else Failure(NotFound)
    }

    /** `createUserProject`: validate, create a pending project, debit one attempt, log the prompt. */
    method CreateUserProject(userId: UserId, initialPrompt: BodyValue) returns (r: Response<ProjectId>)
      requires Valid()
      modifies this
      ensures Valid()
      ensures userId == "" ==> r == Failure(Unauthorized)
      ensures userId != "" && !ValidPrompt(initialPrompt) ==> r == Failure(BadRequest)
      ensures userId != "" && ValidPrompt(initialPrompt) && !CanAfford(old(users), userId) ==> r == Failure(InsufficientCredits)
      ensures userId != "" && ValidPrompt(initialPrompt) && CanAfford(old(users), userId) ==> r.Success?
      ensures r.Failure? ==> unchanged(this)
      ensures r.Success? ==>
        && userId != "" && ValidPrompt(initialPrompt) && CanAfford(old(users), userId)
        && r.body == old(nextProjectId) && r.body !in old(projects)
        && projects == old(projects)[r.body := Project(ProjectName(initialPrompt.s), initialPrompt.s, userId, None, None)]
        && users == old(users)[userId := User(old(users)[userId].credits - GenerationCost, old(users)[userId].totalCreation + 1)]
        && versions == old(versions)
        && conversations == old(conversations) + [Conversation(UserRole, initialPrompt.s, r.body)]
        && nextProjectId == old(nextProjectId) + 1 && nextVersionId == old(nextVersionId)
    {
      if userId == "" {
        return Failure(Unauthorized);
      }
      if !initialPrompt.Str? || initialPrompt.s == "" {
        return Failure(BadRequest);
      }
      var prompt := initialPrompt.s;
      if userId !in users || users[userId].credits < GenerationCost {
        return Failure(InsufficientCredits);
      }
      var id := nextProjectId;
      projects := projects[id := Project(ProjectName(prompt), prompt, userId, None, None)];
      nextProjectId := nextProjectId + 1;
      var user := users[userId];
      users := users[userId := User(user.credits - GenerationCost, user.totalCreation + 1)];
      conversations := conversations + [Conversation(UserRole, prompt, id)];
      r := Success(id);
    }

    /** `makeRevision`: validate, check credits and ownership, log the message, debit one attempt. */
    method MakeRevision(userId: UserId, projectId: ProjectId, message: BodyValue) returns (r: Response<()>)
      requires Valid()
      modifies this
      ensures Valid()
      ensures r.Failure? <==> RevisionRejection(old(users), old(projects), userId, projectId, message).Some?
      ensures r.Failure? ==> r.status == RevisionRejection(old(users), old(projects), userId, projectId, message).value
      ensures r.Failure? ==> unchanged(this)
      ensures r.Success? ==>
        && users == AddCredits(old(users), userId, -GenerationCost)
        && conversations == old(conversations) + [Conversation(UserRole, message.s, projectId)]
        && projects == old(projects) && versions == old(versions)
        && nextProjectId == old(nextProjectId) && nextVersionId == old(nextVersionId)
    {
      var rejection := RevisionRejection(users, projects, userId, projectId, message);
      if rejection.Some? {
        return Failure(rejection.value);
      }
      RecordRevision(userId, projectId, message.s);
      r := Success(());
    }

    /** What an accepted revision does before answering: the message joins the conversation and
      * the attempt's credits are taken. */
    method RecordRevision(userId: UserId, projectId: ProjectId, text: string)
      requires Valid() && CanAfford(users, userId) && projectId in projects
      modifies this`users, this`conversations
      ensures Valid()
      ensures users == AddCredits(old(users), userId, -GenerationCost)
      ensures conversations == old(conversations) + [Conversation(UserRole, text, projectId)]
    {
      RevisionKeepsConsistent(users, projects, versions, conversations, nextProjectId, nextVersionId, userId, projectId, text);
      conversations := conversations + [Conversation(UserRole, text, projectId)];
      users := AddCredits(users, userId, -GenerationCost);
    }

    /** `rollbackToVersion`: move the owner's project pointer to one of its versions; the log is untouched. */
    method RollbackToVersion(userId: UserId, projectId: ProjectId, versionId: VersionId) returns (r: Response<()>)
      requires Valid()
      modifies this
      ensures Valid()
      ensures userId == "" ==> r == Failure(Unauthorized)
      ensures userId != "" && !Owns(old(projects), projectId, userId) ==> r == Failure(NotFound)
      ensures userId != "" && Owns(old(projects), projectId, userId) && FindVersion(old(versions), projectId, versionId).None?
              ==> r == Failure(NotFound)
      ensures userId != "" && Owns(old(projects), projectId, userId) && FindVersion(old(versions), projectId, versionId).Some?
              ==> r.Success?
      ensures r.Failure? ==> unchanged(this)
      ensures r.Success? ==>
        && userId != "" && Owns(old(projects), projectId, userId) && FindVersion(old(versions), projectId, versionId).Some?
        && var v := FindVersion(old(versions), projectId, versionId).value;
        && projects == old(projects)[projectId := old(projects)[projectId].(currentCode := Some(v.code), currentVersionIndex := Some(v.id))]
        && versions == old(versions) && users == old(users)
        && conversations == old(conversations) + [Conversation(AssistantRole, RollbackNote, projectId)]
        && nextProjectId == old(nextProjectId) && nextVersionId == old(nextVersionId)
    {
      if userId == "" {
        return Failure(Unauthorized);
      }
      if projectId !in projects || projects[projectId].userId != userId {
        return Failure(NotFound);
      }
      var found := FindVersion(versions, projectId, versionId);
      if found.None? {
        return Failure(NotFound);
      }
      var v := found.value;
      projects := projects[projectId := projects[projectId].(currentCode := Some(v.code), currentVersionIndex := Some(v.id))];
      conversations := conversations + [Conversation(AssistantRole, RollbackNote, projectId)];
      r := Success(());
    }

    /** `deleteProject`: remove the owner's project; its versions and conversation go with it, as the
      * schema's cascade is taken to remove them. A delete that matches no row makes the store throw,
      * which the handler reports as an internal error. */
    method DeleteProject(userId: UserId, projectId: ProjectId) returns (r: Response<()>)
      requires Valid()
      modifies this
      ensures Valid()
      ensures userId == "" ==> r == Failure(Unauthorized)
      ensures userId != "" && !Owns(old(projects), projectId, userId) ==> r == Failure(InternalError)
      ensures userId != "" && Owns(old(projects), projectId, userId) ==> r.Success?
      ensures r.Failure? ==> unchanged(this)
      ensures r.Success? ==>
        && userId != "" && Owns(old(projects), projectId, userId)
        && projects == old(projects) - {projectId}
        && versions == VersionsWithout(old(versions), projectId)
        && conversations == ConversationsWithout(old(conversations), projectId)
        && users == old(users)
        && nextProjectId == old(nextProjectId) && nextVersionId == old(nextVersionId)
    {
      if userId == "" {
        return Failure(Unauthorized);
      }
      if projectId !in projects || projects[projectId].userId != userId {
        return Failure(InternalError);
      }
      DeleteKeepsConsistent(users, projects, versions, conversations, nextProjectId, nextVersionId, projectId);
      projects := projects - {projectId};
      versions := VersionsWithout(versions, projectId);
      conversations := ConversationsWithout(conversations, projectId);
      r := Success(());
    }

    /** The catch block of a background run: give the attempt's credits back. */
    method Refund(userId: UserId)
      requires Valid()
      modifies this`users
      ensures Valid()
      ensures users == AddCredits(old(users), userId, GenerationCost)
    {
      users := AddCredits(users, userId, GenerationCost);
    }

    /** `version.create` followed by the project update: append one version and point the project at it. */
    method Commit(projectId: ProjectId, code: string, description: string)
      requires Valid() && projectId in projects
      modifies this`versions, this`projects, this`nextVersionId
      ensures Valid()
      ensures versions == old(versions) + [Version(old(nextVersionId), code, description, projectId)]
      ensures projects == old(projects)[projectId := old(projects)[projectId].(currentCode := Some(code), currentVersionIndex := Some(old(nextVersionId)))]
      ensures nextVersionId == old(nextVersionId) + 1
    {
      var v := Version(nextVersionId, code, description, projectId);
      ghost var before := versions;
      versions := versions + [v];
      projects := projects[projectId := projects[projectId].(currentCode := Some(code), currentVersionIndex := Some(v.id))];
      nextVersionId := nextVersionId + 1;
      forall pid | pid in projects
        ensures PointsIntoLog(projects[pid], pid, versions)
      {
        var vid := projects[pid].currentVersionIndex;
        if vid.Some? {
          FindVersionAppend(before, v, pid, vid.value);
          if pid == projectId {
            assert FindVersion(before, pid, v.id).None?;
          }
        }
      }
    }

    /** The end of a background run that got as far as the code call: without code (the failure
      * thrown after the empty check) the attempt is refunded; with code, one version is committed,
      * unless the project is gone, when the store refuses the version row and the attempt is
      * refunded too. */
    method Conclude(projectId: ProjectId, userId: UserId, code: Option<string>, description: string)
      requires Valid()
      modifies this`users, this`versions, this`projects, this`nextVersionId
      ensures Valid()
      ensures if code.Some? && projectId in old(projects) then
          && users == old(users)
          && versions == old(versions) + [Version(old(nextVersionId), code.value, description, projectId)]
          && projects == old(projects)[projectId := old(projects)[projectId].(currentCode := code, currentVersionIndex := Some(old(nextVersionId)))]
          && nextVersionId == old(nextVersionId) + 1
        else
          && users == AddCredits(old(users), userId, GenerationCost)
          && versions == old(versions) && projects == old(projects) && nextVersionId == old(nextVersionId)
    {
      if code.None? || projectId !in projects {
        Refund(userId);
        return;
      }
      Commit(projectId, code.value, description);
    }

    /** `processProjectInBackground`: one initial generation, which commits exactly one version or refunds. */
    method ProcessProjectInBackground(projectId: ProjectId, prompt: string, userId: UserId, model: Model)
      requires Valid()
      modifies this
      ensures Valid()
      ensures conversations == old(conversations) && nextProjectId == old(nextProjectId)
      ensures var code := InitialGeneration(model, prompt);
        if code.Some? && projectId in old(projects) then
          && users == old(users)
          && versions == old(versions) + [Version(old(nextVersionId), code.value, InitialDescription, projectId)]
          && projects == old(projects)[projectId := old(projects)[projectId].(currentCode := code, currentVersionIndex := Some(old(nextVersionId)))]
          && nextVersionId == old(nextVersionId) + 1
        else
          && users == AddCredits(old(users), userId, GenerationCost)
          && versions == old(versions) && projects == old(projects) && nextVersionId == old(nextVersionId)
    {
      ghost var expected := InitialGeneration(model, prompt);
      var enhance := model(EnhanceWebsiteInstruction, prompt);
      if enhance.Threw? {
        assert expected.None?;
        Refund(userId);
        return;
      }
      var enhancedPrompt := Enhanced(enhance.content, prompt);
      var codeRes := model(HtmlOnlyInstruction, enhancedPrompt);
      // the trim, the "Code generation failed" check and the sanitiser
      var code := GeneratedCode(codeRes);
      assert expected == code;
      Conclude(projectId, userId, code, InitialDescription);
    }

    /** `processRevisionInBackground`: one revision, which commits exactly one version or refunds. */
    method ProcessRevisionInBackground(projectId: ProjectId, message: string, userId: UserId, model: Model)
      requires Valid()
      modifies this
      ensures Valid()
      ensures conversations == old(conversations) && nextProjectId == old(nextProjectId)
      ensures var code := RevisionGeneration(model, message, if projectId in old(projects) then old(projects)[projectId].currentCode else None);
        if code.Some? then
          && projectId in old(projects)
          && users == old(users)
          && versions == old(versions) + [Version(old(nextVersionId), code.value, RevisionDescription, projectId)]
          && projects == old(projects)[projectId := old(projects)[projectId].(currentCode := code, currentVersionIndex := Some(old(nextVersionId)))]
          && nextVersionId == old(nextVersionId) + 1
        else
          && users == AddCredits(old(users), userId, GenerationCost)
          && versions == old(versions) && projects == old(projects) && nextVersionId == old(nextVersionId)
    {
      ghost var current0 := if projectId in projects then projects[projectId].currentCode else None;
      ghost var expected := RevisionGeneration(model, message, current0);
      var enhance := model(EnhanceRevisionInstruction, message);
      if enhance.Threw? {
        assert expected.None?;
        Refund(userId);
        return;
      }
      var enhanced := Enhanced(enhance.content, message);
      if projectId !in projects || projects[projectId].currentCode.None? || projects[projectId].currentCode.value == "" {
        assert expected.None?;
        Refund(userId);
        return;
      }
      var current := projects[projectId].currentCode.value;
      var codeRes := model(UpdatedHtmlInstruction, RevisionRequest(current, enhanced));
      // the trim, the "Revision failed" check and the sanitiser
      var code := GeneratedCode(codeRes);
      assert expected == code;
      Conclude(projectId, userId, code, RevisionDescription);
    }
  }
}
