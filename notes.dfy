/** The "Get Notes" action: fetch the transcript in the chosen language,
    and summarise it with the fixed prompt when there is one. The widgets
    and messages of the page are not modelled; the result says which of the
    page's outcomes is reached. */
module Notes {
  import opened Options
  import opened Transcript
  import opened Summarizer

  /** The instruction placed before every transcript (`PROMPT`). */
  const Prompt := "You are an expert summarizer. Summarize the following YouTube transcript into well-structured and detailed notes with bullet points, key takeaways, and simplified language:\n\n"

  /** Which outcome of the action the page shows. */
  datatype NotesPage =
    | SelectLanguageFirst        // no language selected
    | NoTranscript               // fetch failed or the transcript is empty
    | Summary(outcome: Outcome)  // the notes, or the error the client raised

  /** The click handler of the "Get Notes" button. `fetched` is what the
      transcript service answers for the chosen language: its segment texts,
      or `None` when it raised. */
  method GetNotes(langChoice: Option<string>, fetched: Option<seq<string>>, replies: seq<Reply>)
    returns (page: NotesPage, trace: seq<Event>)
    requires |replies| == MaxRetries
    ensures !Truthy(langChoice) ==> page == SelectLanguageFirst && trace == []
    ensures Truthy(langChoice) && !Truthy(TranscriptText(fetched)) ==>
              page == NoTranscript && trace == []
    ensures Truthy(langChoice) && Truthy(TranscriptText(fetched)) ==>
              page == Summary(RetryOutcome(replies)) &&
              trace == Schedule(Prompt + Join(fetched.value), CallsMade(replies))
  {
    trace := [];
    if !Truthy(langChoice) {
      page := SelectLanguageFirst;
      return;
    }
    var transcriptText := TranscriptText(fetched);
    if Truthy(transcriptText) {
      var outcome;
      outcome, trace := GenerateContent(transcriptText.value, Prompt, replies);
      page := Summary(outcome);
    } else {
      page := NoTranscript;
    }
  }
}
