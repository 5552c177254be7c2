/**
 * The news-writer panel session: a menu that is open or absent, its two
 * input fields, what the last state update showed, and the messages sent
 * to the server.
 */
module NewsWrite {
  import opened Wrappers
  import opened NewsSanitizer

  /** Messages from the panel to the server. */
  datatype Message =
    | ArticlesRequest
    | Share(name: string, content: string)
    | Delete(articleNum: int)

  /** A state pushed by the server: the news-writer state, or a state of another kind. */
  datatype BoundState<Article> = NewsWriteState(articles: seq<Article>, shareAvailable: bool) | OtherState

  class NewsWriteBoundUserInterface<Article> {
    /** Whether the menu exists. */
    var menuOpen: bool
    /** The menu's name field. */
    var nameInput: string
    /** The menu's content field. */
    var contentInput: string
    /** The articles and share flag last handed to the menu. */
    var shown: Option<(seq<Article>, bool)>
    /** Messages sent, oldest first. */
    var outbox: seq<Message>

    constructor ()
      ensures !menuOpen && shown == None && outbox == []
    {
      menuOpen := false;
      nameInput := "";
      contentInput := "";
      shown := None;
      outbox := [];
    }

    /** Creates the menu, with empty fields and nothing shown, and requests the articles. */
    method Open()
      modifies this
      ensures menuOpen && nameInput == [] && contentInput == [] && shown == None
      ensures outbox == old(outbox) + [ArticlesRequest]
    {
      menuOpen := true;
      nameInput := "";
      contentInput := "";
      shown := None;
      outbox := outbox + [ArticlesRequest];
    }

    /** Hands a news-writer state to the menu; ignored without a menu or for another kind of state. */
    method UpdateState(state: BoundState<Article>)
      modifies this
      ensures shown == if old(menuOpen) && state.NewsWriteState?
                       then Some((state.articles, state.shareAvailable)) else old(shown)
      ensures menuOpen == old(menuOpen) && nameInput == old(nameInput) && contentInput == old(contentInput)
      ensures outbox == old(outbox)
    {
      if !menuOpen || !state.NewsWriteState? {
        return;
      }
      shown := Some((state.articles, state.shareAvailable));
    }

    /** The share button: sends the sanitised name and content and clears
        both fields, or, without a menu or with an empty field, does nothing.
        `ok` is false when truncation threw; nothing changes then either. */
    method OnShareButtonPressed(maxNameLength: int, maxContentLength: int) returns (ok: bool)
      modifies this
      ensures var r := Submission(old(nameInput), old(contentInput), maxNameLength, maxContentLength);
              ok <==> !(old(menuOpen) && r == Failure(SubstringOutOfRange))
      ensures var r := Submission(old(nameInput), old(contentInput), maxNameLength, maxContentLength);
              if old(menuOpen) && r.Success? then
                && nameInput == [] && contentInput == []
                && outbox == old(outbox) + [Share(r.value.0, r.value.1)]
              else
                && nameInput == old(nameInput) && contentInput == old(contentInput)
                && outbox == old(outbox)
      ensures menuOpen == old(menuOpen) && shown == old(shown)
    {
      ok := true;
      if !menuOpen || |nameInput| == 0 {
        return;
      }
      var stringContent := contentInput;
      if |stringContent| == 0 {
        return;
      }
      var stringName := nameInput;
      var name := Shorten(stringName, maxNameLength);
      if name.Failure? {
        return false;
      }
      var content := Shorten(stringContent, maxContentLength);
      if content.Failure? {
        return false;
      }
      contentInput := "";
      nameInput := "";
      outbox := outbox + [Share(name.value, content.value)];
    }

    /** The delete button: asks the server to delete article `articleNum`,
        with no bounds check, whenever the menu exists. */
    method OnDeleteButtonPressed(articleNum: int)
      modifies this
      ensures outbox == if old(menuOpen) then old(outbox) + [Delete(articleNum)] else old(outbox)
      ensures menuOpen == old(menuOpen) && nameInput == old(nameInput) && contentInput == old(contentInput)
      ensures shown == old(shown)
    {
      if !menuOpen {
        return;
      }
      outbox := outbox + [Delete(articleNum)];
    }
  }
}
