/**
 * The pure parts of the front end's `useBackend` hook: the input guards and
 * response checks around each request, the fence that `updateDbml` wraps the
 * schema text in, and the fence stripping `compareCode` does before sending.
 * The requests themselves are left to the caller: each check takes the reply
 * it would act on as a parameter.
 */
module BackendHooks {
  import opened Text
  import opened Types
  import DbmlCode

  datatype Result<T> = Ok(value: T) | Err(message: string)

  const GeminiModel: string := "gemini-2.5-flash"

  /** The body `generateDbml` posts. */
  datatype DbmlRequest = DbmlRequest(projectName: string, systemDescription: string, modelName: string)

  /** What the back end answers to a DBML request; a missing `cleanDbmlCode` is `None`. */
  datatype DbmlReply = DbmlReply(cleanDbmlCode: Option<string>, projectId: Option<int>)

  /** The parts of an HTTP reply the hook looks at. */
  datatype HttpReply<T> = HttpReply(ok: bool, status: nat, errorText: string, body: T)

  /** One generated file as the back end lists it. */
  datatype BackendFile = BackendFile(path: string, content: string)

  // ---------------------------------------------------------------------------
  // generateDbml
  // ---------------------------------------------------------------------------

  /** The guards of `generateDbml`: blank requirements are refused first, then a
      blank project name, each with its own message and without any request. */
  function GenerateDbmlRequest(requirements: string, projectName: string): (r: Result<DbmlRequest>)
    ensures JsTrim(requirements) == "" ==> r == Err("Requirements cannot be empty.")
    ensures JsTrim(requirements) != "" && JsTrim(projectName) == "" ==> r == Err("Project name cannot be empty.")
    ensures r.Ok? <==> JsTrim(requirements) != "" && JsTrim(projectName) != ""
    ensures r.Ok? ==> r.value == DbmlRequest(projectName, requirements, GeminiModel)
  {
    if JsTrim(requirements) == "" then Err("Requirements cannot be empty.")
    else if JsTrim(projectName) == "" then Err("Project name cannot be empty.")
    else Ok(DbmlRequest(projectName, requirements, GeminiModel))
  }

  /** The message a failed reply raises: its text, or the status when the text is empty. */
  function ReplyErrorMessage(errorText: string, status: nat): (m: string)
    ensures errorText != "" ==> m == errorText
    ensures errorText == "" ==> m == "Backend error: " + NatToString(status)
  {
    if errorText != "" then errorText else "Backend error: " + NatToString(status)
  }

  /** How `generateDbml` judges the reply: a failed reply is an error, and so is a
      reply whose `cleanDbmlCode` is missing or blank; otherwise the reply itself
      is returned, untrimmed. */
  function GenerateDbmlOutcome(reply: HttpReply<DbmlReply>): (r: Result<DbmlReply>)
    ensures !reply.ok ==> r == Err(ReplyErrorMessage(reply.errorText, reply.status))
    ensures reply.ok ==> (r.Ok? <==> reply.body.cleanDbmlCode.Some? && JsTrim(reply.body.cleanDbmlCode.value) != "")
    ensures reply.ok && r.Err? ==> r.message == "Empty DBML returned from backend."
    ensures r.Ok? ==> r.value == reply.body
  {
    if !reply.ok then Err(ReplyErrorMessage(reply.errorText, reply.status))
    else
      var dbml := JsTrim(match reply.body.cleanDbmlCode case Some(c) => c case None => "");
      if dbml == "" then Err("Empty DBML returned from backend.") else Ok(reply.body)
  }

  // ---------------------------------------------------------------------------
  // generateSpringBootCode
  // ---------------------------------------------------------------------------

  /** The guard of `generateSpringBootCode`: blank schema text sends nothing. */
  function GenerateCodeRequest(dbmlCode: string): (r: Result<string>)
    ensures r.Err? <==> JsTrim(dbmlCode) == ""
    ensures r.Err? ==> r.message == "DBML code cannot be empty."
    ensures r.Ok? ==> r.value == dbmlCode
  {
    if JsTrim(dbmlCode) == "" then Err("DBML code cannot be empty.") else Ok(dbmlCode)
  }

  /** The files list the back end returned, turned into the front end's records. */
  function ToGeneratedFiles(files: seq<BackendFile>): (r: seq<GeneratedFile>)
    ensures |r| == |files|
    ensures forall i :: 0 <= i < |files| ==> r[i].fileName == files[i].path && r[i].content == files[i].content
  {
    if files == [] then [] else [GeneratedFile(files[0].path, files[0].content)] + ToGeneratedFiles(files[1..])
  }

  /** How `generateSpringBootCode` judges the reply: a failed reply is an error, a
      body that is not a list (`None`) or an empty list is 'No files generated from
      DBML.', and otherwise every file is kept, in order. */
  function GenerateCodeOutcome(reply: HttpReply<Option<seq<BackendFile>>>): (r: Result<seq<GeneratedFile>>)
    ensures !reply.ok ==> r == Err(ReplyErrorMessage(reply.errorText, reply.status))
    ensures reply.ok && (reply.body.None? || reply.body.value == []) ==> r == Err("No files generated from DBML.")
    ensures r.Ok? <==> reply.ok && reply.body.Some? && reply.body.value != []
    ensures r.Ok? ==> |r.value| == |reply.body.value|
                      && forall i :: 0 <= i < |r.value| ==>
                           r.value[i] == GeneratedFile(reply.body.value[i].path, reply.body.value[i].content)
  {
    if !reply.ok then Err(ReplyErrorMessage(reply.errorText, reply.status))
    else match reply.body
      case None => Err("No files generated from DBML.")
      case Some(files) => if |files| == 0 then Err("No files generated from DBML.") else Ok(ToGeneratedFiles(files))
  }

  // ---------------------------------------------------------------------------
  // updateDbml and compareCode
  // ---------------------------------------------------------------------------

  /** The text `updateDbml` stores: the schema inside a "```dbml" fence. */
  function WrapDbml(dbmlCode: string): (r: string)
    ensures |r| == |dbmlCode| + 12
    ensures StartsWith(r, "```dbml\n") && EndsWith(r, "\n```")
    ensures r[8..|r| - 4] == dbmlCode
  {
    "```dbml\n" + dbmlCode + "\n```"
  }

  /** `replace(/```dbml\n?/g, '')`: every opening fence and the newline right after it go. */
  function StripOpeningFences(s: string): (r: string)
    ensures |r| <= |s|
    decreases |s|
  {
    if s == [] then []
    else if StartsWith(s, "```dbml") then
      if |s| > 7 && s[7] == '\n' then StripOpeningFences(s[8..]) else StripOpeningFences(s[7..])
    else [s[0]] + StripOpeningFences(s[1..])
  }

  /** `replace(/\n?```/g, '')`: every closing fence and the newline right before it go. */
  function StripClosingFences(s: string): (r: string)
    ensures |r| <= |s|
    decreases |s|
  {
    if s == [] then []
    else if StartsWith(s, "\n```") then StripClosingFences(s[4..])
    else if StartsWith(s, "```") then StripClosingFences(s[3..])
    else [s[0]] + StripClosingFences(s[1..])
  }

  /** The cleanup `compareCode` applies to each side: opening fences, then closing
      fences, then a trim. */
  function CleanForCompare(code: string): string
  {
    JsTrim(StripClosingFences(StripOpeningFences(code)))
  }

  /** Text without an opening fence passes the first step unchanged. */
  lemma {:induction false} StripOpeningFencesNone(s: string)
    requires !Contains(s, "```dbml")
    ensures StripOpeningFences(s) == s
    decreases |s|
  {
    if s != [] {
      assert !StartsWith(s, "```dbml") by {
        if StartsWith(s, "```dbml") { assert OccursAt(s, "```dbml", 0); }
      }
      assert !Contains(s[1..], "```dbml") by {
        forall j: nat | j <= |s[1..]| ensures !OccursAt(s[1..], "```dbml", j) {
          if OccursAt(s[1..], "```dbml", j) {
            assert s[1..][j..j + 7] == s[j + 1..j + 8];
            assert OccursAt(s, "```dbml", j + 1);
          }
        }
      }
      StripOpeningFencesNone(s[1..]);
    }
  }

  /** Text without backticks passes the first step unchanged, whatever follows it. */
  lemma StripOpeningPlain(x: string, t: string)
    requires '`' !in x
    ensures StripOpeningFences(x + t) == x + StripOpeningFences(t)
  {
    var s := x + t;
    assert forall k :: 0 <= k < |x| ==> s[k] == x[k] && x[k] in x;
    StripOpeningPlainFrom(s, 0, |x|);
    assert s[0..] == s && s[0..|x|] == x && s[|x|..] == t;
  }

  /** The same, for the stretch `s[i..j]` of a text. */
  lemma {:induction false} StripOpeningPlainFrom(s: string, i: nat, j: nat)
    requires i <= j <= |s| && forall k :: i <= k < j ==> s[k] != '`'
    ensures StripOpeningFences(s[i..]) == s[i..j] + StripOpeningFences(s[j..])
    decreases j - i
  {
    if i < j {
      StripOpeningKeeps(s, i);
      StripOpeningPlainFrom(s, i + 1, j);
      ConsSlice(s, i, j, StripOpeningFences(s[j..]));
    }
  }

  /** A kept character followed by the rest of the stretch and what comes after. */
  lemma ConsSlice(s: string, i: nat, j: nat, rest: string)
    requires i < j <= |s|
    ensures [s[i]] + (s[i + 1..j] + rest) == s[i..j] + rest
  {
    assert s[i..j] == [s[i]] + s[i + 1..j];
  }

  /** A text that starts with no backtick loses nothing at its start in the first step. */
  lemma StripOpeningKeeps(s: string, i: nat)
    requires i < |s| && s[i] != '`'
    ensures StripOpeningFences(s[i..]) == [s[i]] + StripOpeningFences(s[i + 1..])
  {
    var u := s[i..];
    assert !StartsWith(u, "```dbml") by {
      if |u| >= 7 { assert u[..7][0] == u[0]; }
    }
    assert u[1..] == s[i + 1..];
  }

  /** A text that starts with neither a backtick nor a newline before one loses
      nothing at its start in the second step. */
  lemma StripClosingKeeps(s: string, i: nat)
    requires i < |s| && s[i] != '`' && (i + 1 == |s| || s[i] != '\n' || s[i + 1] != '`')
    ensures StripClosingFences(s[i..]) == [s[i]] + StripClosingFences(s[i + 1..])
  {
    var u := s[i..];
    assert !StartsWith(u, "```") by {
      if |u| >= 3 { assert u[..3][0] == u[0]; }
    }
    assert !StartsWith(u, "\n```") by {
      if |u| >= 4 { assert u[..4][0] == u[0] && u[..4][1] == u[1]; }
    }
    assert u[1..] == s[i + 1..];
  }

  /** Each opening fence, with the newline after it when there is one, is deleted
      and the text before it is kept: the scan goes on after the fence. */
  lemma StripOpeningFenceAfter(x: string, nl: string, y: string)
    requires '`' !in x
    requires nl == "\n" || (nl == [] && (y == [] || y[0] != '\n'))
    ensures StripOpeningFences(x + "```dbml" + nl + y) == x + StripOpeningFences(y)
  {
    Regroup(x, "```dbml", nl, y);
    StripOpeningPlain(x, "```dbml" + nl + y);
    StripOpeningFenceFirst(nl, y);
  }

  /** A text that starts with an opening fence loses it, and its newline if any. */
  lemma StripOpeningFenceFirst(nl: string, y: string)
    requires nl == "\n" || (nl == [] && (y == [] || y[0] != '\n'))
    ensures StripOpeningFences("```dbml" + nl + y) == StripOpeningFences(y)
  {
    var t := "```dbml" + nl + y;
    assert t[..7] == "```dbml";
    if nl == "\n" {
      assert t[8..] == y;
    } else {
      assert t[7..] == y;
    }
  }

  /** The same text, grouped the other way. */
  lemma Regroup(x: string, a: string, b: string, y: string)
    ensures x + a + b + y == x + (a + b + y)
  {
  }

  /** Text without backticks passes the second step unchanged, unless a newline
      ending it starts a fence with what follows. */
  lemma StripClosingPlain(x: string, t: string)
    requires '`' !in x
    requires x == [] || x[|x| - 1] != '\n' || t == [] || t[0] != '`'
    ensures StripClosingFences(x + t) == x + StripClosingFences(t)
  {
    var s := x + t;
    assert forall k :: 0 <= k < |x| ==> s[k] == x[k] && x[k] in x;
    StripClosingPlainFrom(s, 0, |x|);
    assert s[0..] == s && s[0..|x|] == x && s[|x|..] == t;
  }

  /** The same, for the stretch `s[i..j]` of a text. */
  lemma {:induction false} StripClosingPlainFrom(s: string, i: nat, j: nat)
    requires i <= j <= |s| && forall k :: i <= k < j ==> s[k] != '`'
    requires i == j || j == |s| || s[j - 1] != '\n' || s[j] != '`'
    ensures StripClosingFences(s[i..]) == s[i..j] + StripClosingFences(s[j..])
    decreases j - i
  {
    if i < j {
      StripClosingKeeps(s, i);
      StripClosingPlainFrom(s, i + 1, j);
      ConsSlice(s, i, j, StripClosingFences(s[j..]));
    }
  }

  /** Each closing fence, with the newline before it when there is one, is deleted
      and the text before it is kept: the scan goes on after the fence. */
  lemma StripClosingFenceAfter(x: string, nl: string, y: string)
    requires '`' !in x
    requires nl == "\n" || (nl == [] && (x == [] || x[|x| - 1] != '\n'))
    ensures StripClosingFences(x + nl + "```" + y) == x + StripClosingFences(y)
  {
    Regroup(x, nl, "```", y);
    StripClosingPlain(x, nl + "```" + y);
    StripClosingFenceFirst(nl, y);
  }

  /** A text that starts with a closing fence, or a newline and one, loses them. */
  lemma StripClosingFenceFirst(nl: string, y: string)
    requires nl == "\n" || nl == []
    ensures StripClosingFences(nl + "```" + y) == StripClosingFences(y)
  {
    var t := nl + "```" + y;
    if nl == "\n" {
      assert t[..4] == "\n```";
      assert t[4..] == y;
    } else {
      assert t[..3] == "```";
      assert !StartsWith(t, "\n```") by { if |t| >= 4 { assert t[..4][0] == t[0]; } }
      assert t[3..] == y;
    }
  }

  /** In `code + "\n```"` with no fence in `code`, the only fence is the final one. */
  lemma OnlyFinalFence(code: string, j: nat)
    requires !Contains(code, "```")
    requires OccursAt(code + "\n```", "```", j)
    ensures j == |code| + 1
  {
    var t := code + "\n```";
    assert t[|code|] == '\n';
    BackticksAt(t, j);
    if j + 3 <= |code| {
      assert t[j..j + 3] == code[j..j + 3];
      assert OccursAt(code, "```", j);
    }
  }

  /** Every character of a fence occurrence is a backtick. */
  lemma BackticksAt(t: string, j: nat)
    requires OccursAt(t, "```", j)
    ensures forall k :: j <= k < j + 3 ==> t[k] == '`'
  {
    forall k | j <= k < j + 3 ensures t[k] == '`' {
      assert t[k] == t[j..j + 3][k - j];
    }
  }

  /** Removing closing fences from `code + "\n```"` gives back `code`. */
  lemma {:induction false} StripClosingFencesTail(code: string, i: nat)
    requires !Contains(code, "```")
    requires i <= |code|
    ensures StripClosingFences((code + "\n```")[i..]) == code[i..]
    decreases |code| - i
  {
    var t := code + "\n```";
    var u := t[i..];
    if i == |code| {
      assert u == "\n```";
      assert StripClosingFences(u) == StripClosingFences(u[4..]);
      assert u[4..] == [];
    } else {
      assert u[0] == code[i];
      assert !StartsWith(u, "\n```") by {
        if StartsWith(u, "\n```") {
          assert t[i + 1..i + 4] == u[1..4];
          assert OccursAt(t, "```", i + 1);
          OnlyFinalFence(code, i + 1);
        }
      }
      assert !StartsWith(u, "```") by {
        if StartsWith(u, "```") {
          assert t[i..i + 3] == u[..3];
          assert OccursAt(t, "```", i);
          OnlyFinalFence(code, i);
        }
      }
      assert u[1..] == t[i + 1..];
      StripClosingFencesTail(code, i + 1);
      assert code[i..] == [code[i]] + code[i + 1..];
    }
  }

  /** `compareCode`'s cleanup undoes `updateDbml`'s wrapping, up to a trim. */
  lemma CleanWrapped(code: string)
    requires !Contains(code, "```")
    ensures CleanForCompare(WrapDbml(code)) == JsTrim(code)
  {
    var w := WrapDbml(code);
    var tail := code + "\n```";
    assert StartsWith(w, "```dbml") && |w| > 7 && w[7] == '\n';
    assert w[8..] == tail;
    assert !Contains(tail, "```dbml") by {
      forall j: nat | j <= |tail| ensures !OccursAt(tail, "```dbml", j) {
        if OccursAt(tail, "```dbml", j) {
          assert tail[j..j + 3] == tail[j..j + 7][..3];
          assert OccursAt(tail, "```", j);
          OnlyFinalFence(code, j);
        }
      }
    }
    StripOpeningFencesNone(tail);
    StripClosingFencesTail(code, 0);
    assert tail[0..] == tail && code[0..] == code;
  }

  /** In the wrapped text the first closing fence after the opening one is the final one. */
  lemma WrappedClosingFence(code: string)
    requires !Contains(code, "```")
    ensures DbmlCode.FirstOccurrence(WrapDbml(code), "```", 7, |code| + 9)
  {
    var w := WrapDbml(code);
    var tail := code + "\n```";
    assert w == "```dbml\n" + tail;
    OccursAtShift("```dbml\n", tail, "```", |code| + 1);
    assert OccursAt(tail, "```", |code| + 1) by {
      assert tail[|code| + 1..|code| + 4] == "```";
    }
    forall j: nat | 7 <= j < |code| + 9 ensures !OccursAt(w, "```", j) {
      if j == 7 {
        assert w[7] == '\n';
      } else {
        OccursAtShift("```dbml\n", tail, "```", j - 8);
        if OccursAt(tail, "```", j - 8) {
          OnlyFinalFence(code, j - 8);
        }
      }
    }
  }

  /** The wrapped text opens with the fence the back end looks for. */
  lemma WrappedOpeningFence(code: string)
    ensures DbmlCode.FirstOccurrence(WrapDbml(code), "```dbml", 0, 0)
  {
    assert WrapDbml(code)[..7] == "```dbml";
  }

  /** Between the two fences of the wrapped text lies the schema text between newlines. */
  lemma WrappedInner(code: string)
    ensures WrapDbml(code)[7..|code| + 9] == "\n" + code + "\n"
  {
  }

  /** The back end's cut undoes the same wrapping, up to Java's trim. */
  lemma ExtractWrapped(code: string)
    requires !Contains(code, "```")
    ensures DbmlCode.ExtractCleanDbmlCode(WrapDbml(code)) == JavaTrim(code)
  {
    WrappedOpeningFence(code);
    WrappedClosingFence(code);
    DbmlCode.ExtractBetweenFences(WrapDbml(code), 0, |code| + 9);
    WrappedInner(code);
    TrimPadded("\n", code, "\n", IsJavaSpace);
  }
}
