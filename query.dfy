/** app.py: the string handling around the question-answering call — the
    video id scanner, the ordered joins that assemble the context from
    web pages and transcripts, and the closed-context prompt. Page
    fetches, the transcript service and the chat model are external; page
    and transcript fetches are passed in as functions whose `None` stands
    for a raised exception. */
module Query {
  import opened Strings

  // ---------------------------------------------------------------------------
  // extract_video_id: re.search(r"(v=|youtu.be/)([^&?/]+)", url).group(2)

  /** A character of the class `[^&?/]` (which, being negated, includes a newline). */
  predicate IdChar(c: char) {
    c != '&' && c != '?' && c != '/'
  }

  /** The alternative `youtu.be/` at `p`, where `.` is any character but a newline. */
  predicate ShortLinkAt(url: string, p: nat) {
    p + 9 <= |url| && url[p..p + 5] == "youtu" && url[p + 5] != '\n' && url[p + 6..p + 9] == "be/"
  }

  /** Where group 2 starts when one of the two alternatives of group 1 matches
      at `p`. The alternatives begin with different letters, so at most one does. */
  function GroupStart(url: string, p: nat): Option<nat> {
    if OccursAt(url, "v=", p) then Some(p + 2)
    else if ShortLinkAt(url, p) then Some(p + 9)
    else None
  }

  /** The whole pattern matches at `p`: a prefix, then at least one id character. */
  predicate MatchesAt(url: string, p: nat) {
    var g := GroupStart(url, p);
    g.Some? && g.value < |url| && IdChar(url[g.value])
  }

  /** The end of the greedy run `[^&?/]+` that starts at `g`. */
  function RunEnd(url: string, g: nat): (e: nat)
    requires g <= |url|
    ensures g <= e <= |url|
    ensures forall i :: g <= i < e ==> IdChar(url[i])
    ensures e == |url| || !IdChar(url[e])
    decreases |url| - g
  {
    if g < |url| && IdChar(url[g]) then RunEnd(url, g + 1) else g
  }

  /** The leftmost match position at or after `from`, as `re.search` scans. */
  function FindMatch(url: string, from: nat): (r: Option<nat>)
    requires from <= |url|
    ensures r.Some? ==> from <= r.value < |url| && MatchesAt(url, r.value)
    ensures r.Some? ==> forall k: nat :: from <= k < r.value ==> !MatchesAt(url, k)
    ensures r.None? ==> forall k: nat :: from <= k ==> !MatchesAt(url, k)
    decreases |url| - from
  {
    if from == |url| then None
    else if MatchesAt(url, from) then Some(from)
    else FindMatch(url, from + 1)
  }

  /** `id` is group 2 of the leftmost match, found at `p`: the run of id
      characters after the prefix, taken as far as it goes. */
  predicate LeftmostId(url: string, p: nat, id: string) {
    && MatchesAt(url, p)
    && (forall k: nat :: k < p ==> !MatchesAt(url, k))
    && var g := GroupStart(url, p).value;
       && g + |id| <= |url| && url[g..g + |id|] == id
       && (g + |id| == |url| || !IdChar(url[g + |id|]))
  }

  /** `extract_video_id`: group 2 of the leftmost match, or `None`. The id is
      non-empty, free of `&`, `?` and `/`, and runs as far as it can. */
  function ExtractVideoId(url: string): (r: Option<string>)
    ensures r.Some? <==> exists p: nat :: MatchesAt(url, p)
    ensures r.Some? ==> 0 < |r.value| && forall i :: 0 <= i < |r.value| ==> IdChar(r.value[i])
    ensures r.Some? ==> exists p: nat :: LeftmostId(url, p, r.value)
  {
    match FindMatch(url, 0)
    case None => None
    case Some(p) =>
      var g := GroupStart(url, p).value;
      var id := url[g..RunEnd(url, g)];
      assert LeftmostId(url, p, id);
      assert forall i :: 0 <= i < |id| ==> IdChar(id[i]) by {
        assert forall i :: 0 <= i < |id| ==> id[i] == url[g + i];
      }
      Some(id)
  }

  /** The run is determined by where it stops. */
  lemma {:induction false} RunTo(url: string, g: nat, e: nat)
    requires g <= e <= |url|
    requires forall i :: g <= i < e ==> IdChar(url[i])
    requires e == |url| || !IdChar(url[e])
    ensures RunEnd(url, g) == e
    decreases e - g
  {
    if g < e {
      RunTo(url, g + 1, e);
    }
  }

  /** The id found at the leftmost match position `p`, for a run that stops at `e`. */
  lemma ExtractAt(url: string, p: nat, e: nat)
    requires MatchesAt(url, p) && forall k: nat :: k < p ==> !MatchesAt(url, k)
    requires var g := GroupStart(url, p).value;
      g <= e <= |url| && (forall i :: g <= i < e ==> IdChar(url[i])) && (e == |url| || !IdChar(url[e]))
    ensures ExtractVideoId(url) == Some(url[GroupStart(url, p).value..e])
  {
    var r := FindMatch(url, 0);
    assert r.Some?;
    assert !(r.value < p) && !(p < r.value);
    RunTo(url, GroupStart(url, p).value, e);
  }

  /** A short link: the id follows `youtu.be/` and stops at the query string. */
  lemma ShortLinkId()
    ensures ExtractVideoId("youtu.be/abc?t=5") == Some("abc")
  {
    var url := "youtu.be/abc?t=5";
    assert url[0..5] == "youtu" && url[6..9] == "be/";
    assert url[0..2][0] != 'v';
    assert GroupStart(url, 0) == Some(9);
    assert MatchesAt(url, 0);
    assert url[9] == 'a' && url[10] == 'b' && url[11] == 'c' && url[12] == '?';
    ExtractAt(url, 0, 12);
    assert url[9..12] == "abc";
  }

  /** The `.` of the pattern is a wildcard: any character may stand between `youtu` and `be/`. */
  lemma WildcardInShortLink()
    ensures ExtractVideoId("youtuXbe/abc") == Some("abc")
  {
    var url := "youtuXbe/abc";
    assert url[0..5] == "youtu" && url[6..9] == "be/";
    assert url[0..2][0] != 'v';
    assert GroupStart(url, 0) == Some(9);
    assert MatchesAt(url, 0);
    assert url[9] == 'a' && url[10] == 'b' && url[11] == 'c';
    ExtractAt(url, 0, 12);
    assert url[9..12] == "abc";
  }

  /** A `v=` followed by a stop character does not match; the scan goes on to the next `v=`. */
  lemma EmptyRunSkipped()
    ensures ExtractVideoId("v=&v=xy") == Some("xy")
  {
    var url := "v=&v=xy";
    assert url[3..5] == "v=";
    assert MatchesAt(url, 3);
    forall k: nat | k < 3
      ensures !MatchesAt(url, k)
    {
      assert !ShortLinkAt(url, k);
      if k == 0 {
        assert !IdChar(url[2]);
      } else {
        assert url[k..k + 2][0] != 'v';
      }
    }
    assert url[5] == 'x' && url[6] == 'y';
    ExtractAt(url, 3, 7);
    assert url[5..7] == "xy";
  }

  /** The wildcard does not match a newline, and no other position matches either. */
  lemma NewlineBreaksShortLink()
    ensures ExtractVideoId("youtu\nbe/abc") == None
  {
    var url := "youtu\nbe/abc";
    assert 'v' !in url;
    assert 'y' !in url[1..];
    forall k: nat
      ensures !MatchesAt(url, k)
    {
      if k + 2 <= |url| {
        assert url[k..k + 2][0] == url[k];
        assert url[k] in url;
      }
      if 0 < k && k + 9 <= |url| {
        assert url[k..k + 5][0] == url[k];
        assert url[k] == url[1..][k - 1];
      }
      if k == 0 {
        assert url[5] == '\n';
      }
    }
  }

  // ---------------------------------------------------------------------------
  // load_youtube and load_websites.

  /** The texts that `load_youtube` collects: for each URL in order, the
      space-joined segments of its transcript, skipping URLs without an id and
      transcripts whose retrieval fails. */
  function Transcripts(urls: seq<string>, transcript: string -> Option<seq<string>>): seq<string> {
    if urls == [] then []
    else
      var init := Transcripts(urls[..|urls| - 1], transcript);
      match ExtractVideoId(urls[|urls| - 1])
      case None => init
      case Some(id) =>
        match transcript(id)
        case None => init
        case Some(segments) => init + [Join(" ", segments)]
  }

  /** What one URL contributes to `load_youtube`. */
  function TranscriptOf(url: string, transcript: string -> Option<seq<string>>): seq<string> {
    match ExtractVideoId(url)
    case None => []
    case Some(id) =>
      match transcript(id)
      case None => []
      case Some(segments) => [Join(" ", segments)]
  }

  /** Collecting distributes over concatenation of the URL list: the texts come in input order. */
  lemma {:induction false} TranscriptsAppend(a: seq<string>, b: seq<string>, transcript: string -> Option<seq<string>>)
    ensures Transcripts(a + b, transcript) == Transcripts(a, transcript) + Transcripts(b, transcript)
    decreases |b|
  {
    if b == [] {
      assert a + b == a;
    } else {
      var n := |b| - 1;
      assert (a + b)[..|a + b| - 1] == a + b[..n];
      TranscriptsAppend(a, b[..n], transcript);
    }
  }

  /** One URL contributes at most one text: its transcript when it has an id and a transcript, nothing otherwise. */
  lemma TranscriptsSingle(url: string, transcript: string -> Option<seq<string>>)
    ensures Transcripts([url], transcript) == TranscriptOf(url, transcript)
    ensures |Transcripts([url], transcript)| <= 1
  {
    assert [url][..0] == [];
  }

  /** `load_youtube`. */
  method LoadYoutube(videoUrls: seq<string>, transcript: string -> Option<seq<string>>) returns (r: string)
    ensures r == Join("\n", Transcripts(videoUrls, transcript))
  {
    var texts: seq<string> := [];
    for n := 0 to |videoUrls|
      invariant texts == Transcripts(videoUrls[..n], transcript)
    {
      assert videoUrls[..n + 1][..n] == videoUrls[..n];
      var videoId := ExtractVideoId(videoUrls[n]);
      if videoId.None? {
        continue;
      }
      var segments := transcript(videoId.value);
      if segments.None? {
        continue;
      }
      texts := texts + [Join(" ", segments.value)];
    }
    assert videoUrls[..|videoUrls|] == videoUrls;
    r := Join("\n", texts);
  }

  /** The page texts, or `None` when any fetch fails (the exception propagates). */
  function PageTexts(urls: seq<string>, page: string -> Option<string>): (r: Option<seq<string>>)
    ensures r.Some? <==> forall i :: 0 <= i < |urls| ==> page(urls[i]).Some?
    ensures r.Some? ==> |r.value| == |urls| && forall i :: 0 <= i < |urls| ==> page(urls[i]) == Some(r.value[i])
  {
    if urls == [] then Some([])
    else
      var n := |urls| - 1;
      var init := PageTexts(urls[..n], page);
      assert forall i :: 0 <= i < n ==> urls[..n][i] == urls[i];
      match init
      case None => None
      case Some(texts) =>
        match page(urls[n])
        case None => None
        case Some(t) => Some(texts + [t])
  }

  /** `load_websites`: the newline-joined page texts; any failed fetch aborts it. */
  method LoadWebsites(urls: seq<string>, page: string -> Option<string>) returns (r: Option<string>)
    ensures r.None? <==> exists i :: 0 <= i < |urls| && page(urls[i]).None?
    ensures r.Some? ==> PageTexts(urls, page).Some? && r.value == Join("\n", PageTexts(urls, page).value)
  {
    var texts: seq<string> := [];
    for n := 0 to |urls|
      invariant PageTexts(urls[..n], page) == Some(texts)
    {
      assert urls[..n + 1][..n] == urls[..n];
      var text := page(urls[n]);
      if text.None? {
        return None;
      }
      texts := texts + [text.value];
    }
    assert urls[..|urls|] == urls;
    r := Some(Join("\n", texts));
  }

  // ---------------------------------------------------------------------------
  // build_context.

  /** `build_context`. An absent URL list and an empty one are both falsy, so
      both are the empty sequence here; `None` is the propagated fetch error. */
  method BuildContext(webUrls: seq<string>, youtubeUrls: seq<string>, page: string -> Option<string>,
                      transcript: string -> Option<seq<string>>) returns (r: Option<string>)
    ensures r.None? <==> |webUrls| > 0 && PageTexts(webUrls, page).None?
    ensures |webUrls| == 0 && |youtubeUrls| == 0 ==> r == Some("")
    ensures |webUrls| > 0 && |youtubeUrls| == 0 && r.Some? ==>
      r.value == Join("\n", PageTexts(webUrls, page).value)
    ensures |webUrls| == 0 && |youtubeUrls| > 0 ==>
      r == Some(Join("\n", Transcripts(youtubeUrls, transcript)))
    ensures |webUrls| > 0 && |youtubeUrls| > 0 && r.Some? ==>
      r.value == Join("\n", PageTexts(webUrls, page).value) + "\n" + Join("\n", Transcripts(youtubeUrls, transcript))
  {
    var parts: seq<string> := [];
    if |webUrls| > 0 {
      var web := LoadWebsites(webUrls, page);
      if web.None? {
        return None;
      }
      parts := parts + [web.value];
    }
    if |youtubeUrls| > 0 {
      var youtube := LoadYoutube(youtubeUrls, transcript);
      parts := parts + [youtube];
    }
    if |parts| == 2 {
      JoinTwo("\n", parts[0], parts[1]);
    }
    r := Some(Join("\n", parts));
  }

  // ---------------------------------------------------------------------------
  // The prompts of ask_llm and ask_llm_public.

  /** The sentence the model is told to answer with when the context lacks the answer. */
  const RefusalSentence: string := "Không tìm thấy thông tin trong các nguồn đã cấu hình."

  /** The rules, ending with the quoted refusal sentence. */
  const RulesIntro: string := "\nBạn là một AI tra cứu thông tin KHÉP KÍN.\n\nQUY TẮC BẮT BUỘC:\n- CHỈ được sử dụng thông tin trong <CONTEXT>\n- TUYỆT ĐỐI KHÔNG sử dụng kiến thức bên ngoài\n- Nếu thông tin không có trong CONTEXT, hãy trả lời đúng nguyên văn:\n  "
  const Rules: string := RulesIntro + "\"" + RefusalSentence + "\""

  const ContextOpen: string := "\n\n<CONTEXT>\n"
  const ContextClose: string := "\n</CONTEXT>\n\n"
  const QuestionLabel: string := "Câu hỏi: "

  /** The `ask_llm` prompt. */
  function Prompt(context: string, question: string): string {
    Rules + ContextOpen + context + ContextClose + QuestionLabel + question + "\n"
  }

  /** Where the context starts in the prompt. */
  function ContextOffset(): nat {
    |Rules| + |ContextOpen|
  }

  /** `c` stands at offset `o` of `p`, right after `open` and right before `close`. */
  predicate Framed<T(==)>(p: seq<T>, open: seq<T>, o: nat, c: seq<T>, close: seq<T>) {
    && |open| <= o && o + |c| + |close| <= |p|
    && p[o - |open|..o] == open
    && p[o..o + |c|] == c
    && p[o + |c|..o + |c| + |close|] == close
  }

  /** The context stands verbatim between the `<CONTEXT>` and `</CONTEXT>` lines. */
  lemma ContextEnclosed(context: string, question: string)
    ensures Framed(Prompt(context, question), ContextOpen, ContextOffset(), context, ContextClose)
  {
    PartsAt(Rules, ContextOpen, context, ContextClose, QuestionLabel, question, "\n");
  }

  /** Where the middle parts of `a + open + c + close + b1 + b2 + b3` lie. */
  lemma PartsAt<T>(a: seq<T>, open: seq<T>, c: seq<T>, close: seq<T>, b1: seq<T>, b2: seq<T>, b3: seq<T>)
    ensures Framed(a + open + c + close + b1 + b2 + b3, open, |a| + |open|, c, close)
  {
    var p := a + open + c + close + b1 + b2 + b3;
    assert p == a + open + c + close + (b1 + b2 + b3);
  }

  /** The prompt ends with the labelled question and a newline. */
  lemma QuestionLast(context: string, question: string)
    ensures EndsWith(Prompt(context, question), QuestionLabel + question + "\n")
  {
    var p := Prompt(context, question);
    var tail := QuestionLabel + question + "\n";
    assert p == (Rules + ContextOpen + context + ContextClose) + tail;
  }

  /** The refusal sentence appears, quoted, before the context. */
  lemma RefusalInstructed(context: string, question: string)
    ensures var p := Prompt(context, question);
      Contains(p, "\"" + RefusalSentence + "\"") && Contains(p, RefusalSentence)
  {
    QuotedOccurs(RulesIntro, RefusalSentence);
    var pats := ["\"" + RefusalSentence + "\"", RefusalSentence];
    forall k | 0 <= k < 2
      ensures Contains(Prompt(context, question), pats[k])
    {
      var pat := pats[k];
      ContainsGrow(Rules, ContextOpen, pat);
      ContainsGrow(Rules + ContextOpen, context, pat);
      ContainsGrow(Rules + ContextOpen + context, ContextClose, pat);
      ContainsGrow(Rules + ContextOpen + context + ContextClose, QuestionLabel, pat);
      ContainsGrow(Rules + ContextOpen + context + ContextClose + QuestionLabel, question, pat);
      ContainsGrow(Rules + ContextOpen + context + ContextClose + QuestionLabel + question, "\n", pat);
    }
    assert Contains(Prompt(context, question), pats[0]);
    assert Contains(Prompt(context, question), pats[1]);
  }

  /** A quoted sentence, and the sentence itself, occur in a text that ends with it. */
  lemma QuotedOccurs(a: string, sentence: string)
    ensures Contains(a + "\"" + sentence + "\"", "\"" + sentence + "\"")
    ensures Contains(a + "\"" + sentence + "\"", sentence)
  {
    var q := "\"" + sentence + "\"";
    assert a + "\"" + sentence + "\"" == a + q + [];
    OccursBetween(a, q, []);
    assert a + "\"" + sentence + "\"" == (a + "\"") + sentence + "\"";
    OccursBetween(a + "\"", sentence, "\"");
  }

  /** For a fixed question, the prompt determines the context. */
  lemma ContextRecoverable(c1: string, c2: string, question: string)
    ensures Prompt(c1, question) == Prompt(c2, question) <==> c1 == c2
  {
    if Prompt(c1, question) == Prompt(c2, question) {
      ContextEnclosed(c1, question);
      ContextEnclosed(c2, question);
      var o := ContextOffset();
      assert |c1| == |c2|;
    }
  }

  const PublicHead: string := "\nChỉ trả lời dựa trên thông tin sau:\n\n"
  const PublicLabel: string := "\n\nCâu hỏi: "

  /** The `ask_llm_public` prompt. */
  function PublicPrompt(context: string, question: string): string {
    PublicHead + context + PublicLabel + question + "\n"
  }

  /** The public prompt leads with its one instruction, then the context verbatim, then the question. */
  lemma PublicPromptLayout(context: string, question: string)
    ensures var p := PublicPrompt(context, question); var o := |PublicHead|;
      && o + |context| + |PublicLabel| + |question| + 1 == |p|
      && p[..o] == PublicHead
      && p[o..o + |context|] == context
      && p[o + |context|..o + |context| + |PublicLabel|] == PublicLabel
      && EndsWith(p, question + "\n")
  {
    var p := PublicPrompt(context, question);
    assert p == PublicHead + context + PublicLabel + (question + "\n");
  }
}
