/** The ways a run aborts before a report exists. In the script each is an
    uncaught TypeError that ends the process with no output. */
module Errors {

  datatype Fatal =
    | MissingSonarUrl          // `argv.sonarurl.replace(...)` on an absent argument
    | MissingSetCookie         // the login response carries no Set-Cookie header
    | MissingLeakPeriodSetting // the settings response holds no `settings[0]`
}
