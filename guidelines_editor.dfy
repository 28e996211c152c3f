/**
 * The state of the guidelines editor component (GuildelinesGenerator.tsx): the selected tags,
 * the draft of rules shown in the editable text area and the loading flag, with the event
 * handlers that change them. The reply of the rule-generation backend is a parameter:
 * `Some(rules)` when the call returned, `None` when it threw.
 */
module GuidelinesEditor {
  import opened Wrappers
  import TagSelection
  import MarkdownExport

  /** The shortest custom prompt the prompt form accepts (`z.string().min(10)`). */
  const MinPromptLength: nat := 10

  /** What the results area shows. */
  datatype Phase = Idle | Loading | Ready

  class Editor {
    /** `selectedPredefinedTags` of the tags form, mirrored in `selectedTags`. */
    var selected: seq<string>
    /** `generatedRules`. */
    var draft: string
    /** `isLoading`. */
    var loading: bool

    /**
     * The selection only ever changes by toggling, starting from none, so it holds no tag twice;
     * while a request is in flight the draft is empty.
     */
    ghost predicate Valid()
      reads this
    {
      && TagSelection.Distinct(selected)
      && (loading ==> draft == "")
    }

    /** The spinner while loading, the placeholder for an empty draft, the editor otherwise. */
    function CurrentPhase(): (p: Phase)
      reads this
      ensures p == Loading <==> loading
      ensures p == Ready <==> !loading && draft != ""
    {
      if loading then Loading else if draft == "" then Idle else Ready
    }

    constructor ()
      ensures Valid()
      ensures selected == [] && draft == "" && !loading
      ensures CurrentPhase() == Idle
    {
      selected := [];
      draft := "";
      loading := false;
    }

    /** handleToggleTag: the selection after a click on a tag badge; nothing else changes. */
    method ToggleTag(tag: string)
      requires Valid()
      modifies this
      ensures Valid()
      ensures selected == TagSelection.Toggle(old(selected), tag)
      ensures draft == old(draft) && loading == old(loading)
    {
      TagSelection.ToggleKeepsDistinct(selected, tag);
      selected := TagSelection.Toggle(selected, tag);
    }

    /** The part of a generation handler before the backend call: spinner on, old draft gone. */
    method StartRequest()
      requires Valid() && !loading
      modifies this
      ensures Valid()
      ensures loading && draft == ""
      ensures selected == old(selected)
      ensures CurrentPhase() == Loading
    {
      loading := true;
      draft := "";
    }

    /**
     * The part of a generation handler after the backend call: the draft is the returned
     * rules, or stays empty when the call threw, and the spinner is off.
     */
    method CompleteRequest(reply: Option<string>)
      requires Valid() && loading
      modifies this
      ensures Valid()
      ensures !loading
      ensures draft == (if reply.Some? then reply.value else "")
      ensures selected == old(selected)
    {
      if reply.Some? {
        draft := reply.value;
      }
      loading := false;
    }

    /**
     * onGenerateWithTags. With no tag selected nothing changes and no request is sent
     * (`sent == None`); otherwise the selection is sent (`sent == Some(selected)`) and the
     * draft becomes the reply's rules, or "" when the call threw.
     */
    method GenerateWithTags(reply: Option<string>) returns (sent: Option<seq<string>>)
      requires Valid() && !loading
      modifies this
      ensures Valid()
      ensures !loading && selected == old(selected)
      ensures sent.None? <==> old(selected) == []
      ensures sent.Some? ==> sent.value == old(selected)
      ensures sent.None? ==> draft == old(draft)
      ensures sent.Some? ==> draft == (if reply.Some? then reply.value else "")
      ensures sent.Some? ==> (CurrentPhase() == Ready <==> reply.Some? && reply.value != "")
    {
      if |selected| == 0 {
        return None;
      }
      StartRequest();
      sent := Some(selected);
      CompleteRequest(reply);
    }

    /**
     * onGenerateWithPrompt behind the prompt form's resolver. A prompt shorter than
     * MinPromptLength is refused before the handler runs: nothing changes, nothing is sent.
     * Otherwise the prompt is sent and the draft becomes the reply's rules, or "".
     */
    method GenerateWithPrompt(prompt: string, reply: Option<string>) returns (sent: Option<string>)
      requires Valid() && !loading
      modifies this
      ensures Valid()
      ensures !loading && selected == old(selected)
      ensures sent.None? <==> |prompt| < MinPromptLength
      ensures sent.Some? ==> sent.value == prompt
      ensures sent.None? ==> draft == old(draft)
      ensures sent.Some? ==> draft == (if reply.Some? then reply.value else "")
      ensures sent.Some? ==> (CurrentPhase() == Ready <==> reply.Some? && reply.value != "")
    {
      if |prompt| < MinPromptLength {
        return None;
      }
      StartRequest();
      sent := Some(prompt);
      CompleteRequest(reply);
    }

    /**
     * handleRuleChange: the text area's new value replaces the draft wholesale. The text area
     * is only rendered while not loading and with a non-empty draft; clearing it unmounts it.
     */
    method Edit(text: string)
      requires Valid() && !loading && draft != ""
      modifies this
      ensures Valid()
      ensures draft == text
      ensures selected == old(selected) && loading == old(loading)
      ensures CurrentPhase() == (if text == "" then Idle else Ready)
    {
      draft := text;
    }

    /**
     * handleCopyToClipboard: the text written to the clipboard, which is exactly the draft,
     * or None when the draft is empty.
     */
    method Copy() returns (clip: Option<string>)
      ensures clip.None? <==> draft == ""
      ensures clip.Some? ==> clip.value == draft
    {
      if draft == "" {
        return None;
      }
      clip := Some(draft);
    }

    /**
     * handleDownloadMarkdown: the content of community-guidelines.md, or None when the draft
     * is empty. The draft can be read back from the document unchanged.
     */
    method Download() returns (file: Option<string>)
      ensures file.None? <==> draft == ""
      ensures file.Some? ==> file.value == MarkdownExport.ToMarkdown(draft)
      ensures file.Some? ==> MarkdownExport.ParseMarkdown(file.value) == Some(draft)
    {
      if draft == "" {
        return None;
      }
      MarkdownExport.MarkdownRoundTrip(draft);
      file := Some(MarkdownExport.ToMarkdown(draft));
    }
  }

  /**
   * A session of events: the generation finishes with loading off, exports never touch the
   * draft, clearing the editor brings back the placeholder, and two clicks on a fresh tag
   * restore the empty selection.
   */
  method Session(tag: string, reply: Option<string>)
  {
    var e := new Editor();
    e.ToggleTag(tag);
    var sent := e.GenerateWithTags(reply);
    assert sent == Some([tag]);
    var clip := e.Copy();
    var file := e.Download();
    assert clip.Some? <==> reply.Some? && reply.value != "";
    assert e.draft == (if reply.Some? then reply.value else "");
    if e.draft != "" {
      e.Edit("");
      assert e.CurrentPhase() == Idle;
    }
    e.ToggleTag(tag);
    TagSelection.ToggleTwiceAbsent([], tag);
    assert e.selected == [];
  }
}
