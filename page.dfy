/**
 * The home page's state (`frontend/src/app/page.tsx`): the locale shown, the
 * `mounted` flag that keeps the splash screen up until the stored locale has
 * been adopted, the active view, and which view each view id renders.
 */
module Page {

  import opened Wrappers
  import opened I18n

  /** The four dashboard views, each given the current locale. */
  datatype View = ChatView(locale: Locale) | MarketView(locale: Locale) | PlannerView(locale: Locale) | SchemesView(locale: Locale)

  /** What the page shows: the splash screen, or the dashboard with the active view's content (or none). */
  datatype Screen = Splash | Dashboard(locale: Locale, activeView: string, content: Option<View>)

  /** The view ids the sidebar offers. */
  const ViewIds: set<string> := {"chat", "market", "planner", "schemes"}

  /** `renderContent`: the switch on `activeView`; an unknown id renders nothing. */
  function RenderContent(activeView: string, locale: Locale): Option<View> {
    if activeView == "chat" then Some(ChatView(locale))
    else if activeView == "market" then Some(MarketView(locale))
    else if activeView == "planner" then Some(PlannerView(locale))
    else if activeView == "schemes" then Some(SchemesView(locale))
    else None
  }

  /** The page: the splash until mounted, then the dashboard. */
  function Render(mounted: bool, activeView: string, locale: Locale): Screen {
    if !mounted then Splash else Dashboard(locale, activeView, RenderContent(activeView, locale))
  }

  /** Exactly the four known ids render a view, each its own one and in the current locale. */
  lemma RenderContentDispatch(activeView: string, locale: Locale)
    ensures RenderContent(activeView, locale).Some? <==> activeView in ViewIds
    ensures RenderContent(activeView, locale).Some? ==> RenderContent(activeView, locale).value.locale == locale
    ensures activeView == "chat" ==> RenderContent(activeView, locale) == Some(ChatView(locale))
    ensures activeView == "market" ==> RenderContent(activeView, locale) == Some(MarketView(locale))
    ensures activeView == "planner" ==> RenderContent(activeView, locale) == Some(PlannerView(locale))
    ensures activeView == "schemes" ==> RenderContent(activeView, locale) == Some(SchemesView(locale))
  {
  }

  /** Only the splash is shown while not mounted, and never afterwards. */
  lemma SplashIffUnmounted(mounted: bool, activeView: string, locale: Locale)
    ensures Render(mounted, activeView, locale) == Splash <==> !mounted
  {
  }

  class Home {
    /** The browser whose `localStorage` holds the preference. */
    const browser: Browser
    var locale: Locale
    var mounted: bool
    var activeView: string

    /** The initial state: English, not mounted, the chat view. */
    constructor (browser: Browser)
      ensures this.browser == browser
      ensures locale == En && !mounted && activeView == "chat"
    {
      this.browser := browser;
      locale := En;
      mounted := false;
      activeView := "chat";
    }

    /** What the page renders in its current state: the splash exactly until the mount effect has run. */
    function Shown(): (s: Screen)
      reads this
      ensures s == Splash <==> !mounted
      ensures mounted ==> s.content == RenderContent(activeView, locale)
    {
      Render(mounted, activeView, locale)
    }

    /**
     * The effect keyed on `locale`: adopts the stored locale when it differs
     * and marks the page mounted. Once the locale equals the stored one,
     * running it again changes nothing but `mounted`.
     */
    method MountEffect()
      modifies this`locale, this`mounted
      ensures locale == StoredLocale(browser.hasWindow, browser.storage)
      ensures old(locale) == StoredLocale(browser.hasWindow, browser.storage) ==> locale == old(locale)
      ensures mounted
    {
      var stored := browser.GetStoredLocale();
      if stored != locale {
        locale := stored;
      }
      mounted := true;
    }

    /** `handleLocaleChange`: sets the locale in memory and in storage. */
    method HandleLocaleChange(l: Locale)
      modifies this`locale, browser`storage
      ensures locale == l
      ensures browser.storage == StoreLocale(browser.hasWindow, old(browser.storage), l)
      ensures browser.hasWindow ==> StoredLocale(browser.hasWindow, browser.storage) == l
      ensures mounted == old(mounted) && activeView == old(activeView)
    {
      locale := l;
      browser.SetStoredLocale(l);
    }

    /**
     * A locale picked in the selector: `handleLocaleChange`, then the effect
     * that the locale change triggers. With `window` the pick sticks.
     */
    method SelectLocale(l: Locale)
      modifies this`locale, this`mounted, browser`storage
      ensures browser.hasWindow ==> locale == l
      ensures browser.storage == StoreLocale(browser.hasWindow, old(browser.storage), l)
      ensures mounted
    {
      HandleLocaleChange(l);
      MountEffect();
    }

    /** `onViewChange`: the sidebar sets the active view. */
    method SetActiveView(view: string)
      modifies this`activeView
      ensures activeView == view
    {
      activeView := view;
    }
  }
}
