/**
 * The client layout: the navbar and the footer wrap every page except the
 * print pages and the two auth pages.
 */
module ClientLayout {
  import opened Wrappers
  import opened Text
  import ReportForms

  /** `hideLayout`: the path starts with `/print`, or is `/login` or `/register`; a missing
    * path (`usePathname()` before routing) hides nothing. */
  predicate HideLayout(pathname: Option<string>) {
    pathname.Some? &&
    (StartsWith(pathname.value, "/print") || pathname.value == "/login" || pathname.value == "/register")
  }

  /** The chrome around the page. */
  datatype Chrome = Chrome(navbar: bool, footer: bool)

  /** The navbar and the footer are rendered together, exactly when the layout is not hidden. */
  function ChromeFor(pathname: Option<string>): (r: Chrome)
    ensures r.navbar == r.footer
    ensures r.navbar <==> !HideLayout(pathname)
  {
    var hidden := HideLayout(pathname);
    Chrome(!hidden, !hidden)
  }

  /** The print test is a prefix test: `/printer` loses its chrome too, while the auth tests are
    * exact, so `/login/` keeps it. */
  lemma PrefixAndExactTests()
    ensures !ChromeFor(Some("/printer")).navbar
    ensures ChromeFor(Some("/login/")).navbar
    ensures ChromeFor(None).navbar && ChromeFor(Some("/")).navbar
  {
    assert "/printer"[..6] == "/print";
    assert "/login/"[..6] != "/print" by { assert "/login/"[1] == 'l'; }
    assert "/login/" != "/login" && "/login/" != "/register" by {
      assert |"/login/"| != |"/login"| && |"/login/"| != |"/register"|;
    }
  }

  /** The two print pages the report forms open show the bare report. */
  lemma ReportPagesBare()
    ensures !ChromeFor(Some(ReportForms.ReportPath[..|ReportForms.ReportPath| - 1])).navbar
    ensures !ChromeFor(Some(ReportForms.BossReportPath[..|ReportForms.BossReportPath| - 1])).navbar
  {
    assert ReportForms.ReportPath[..|ReportForms.ReportPath| - 1][..6] == "/print";
    assert ReportForms.BossReportPath[..|ReportForms.BossReportPath| - 1][..6] == "/print";
  }
}
