/**
 What a route handler answers.  Only the parts a client can observe are kept:
 the redirect target, the status and body of `res.send`, the template and the
 rows handed to it.
 */
module Http {
  import opened Store

  datatype Reply =
    | Redirect(location: string)
    | Send(status: nat, body: string)
    | Render(view: string, rows: seq<Url>)
      /** `next(err)`: Express answers with its generic server error. */
    | ServerError
      /**
       The handler itself sends nothing: an error it only logs, or an exception
       thrown inside an async handler, which reaches Express as a rejected
       promise; what the framework then does with it is outside this model.
       */
    | NoReply

  const LoginPage := "/login"
  const DashboardPage := "/dashboard"
  const DashboardView := "dashboard.ejs"
  const SubmitView := "submit.ejs"
  const AlreadyRegisteredText := "You are already registered try logging in"
  const NotFoundText := "Short URL Not Found"
}
