/** How the pieces meet: the form feeds the handler, the handler feeds the
    listing and the two seat counters. Two disagreements are kept as the
    code has them: the dashboard counts against 60 while the handler and
    the seats query count against 70, and the form upper-cases the USN
    while the handler compares it literally. */
module Interplay {
  import opened Text
  import opened Records
  import RegisterForm
  import RegisterApi
  import SeatsApi
  import Dashboard
  import Department
  import DepartmentExamples

  /** The seats query reports no seat exactly when the handler's capacity
      gate rejects. */
  lemma SeatsQueryMatchesGate(store: RegisterApi.Store)
    ensures SeatsApi.RemainingSeats(|store|) == 0 <==> |store| >= RegisterApi.Capacity
    ensures SeatsApi.RemainingSeats(|store|) > 0 ==> |store| + SeatsApi.RemainingSeats(|store|) == RegisterApi.Capacity
  {
  }

  /** Between 60 and 69 participants the dashboard announces that
      registrations are full while the handler still admits and the seats
      query still reports free seats. */
  lemma DashboardCapacityDisagrees(count: nat)
    requires 60 <= count < 70
    ensures Dashboard.BannerFor(count) == Dashboard.RegistrationsFull
    ensures Dashboard.SeatsRemaining(count) <= 0
    ensures SeatsApi.RemainingSeats(count) == 70 - count > 0
    ensures count < RegisterApi.Capacity
  {
  }

  /** At the handler's full capacity the dashboard's own counter is
      negative. */
  lemma DashboardCounterGoesNegative()
    ensures Dashboard.SeatsRemaining(RegisterApi.Capacity) == -10
  {
  }

  /** Through the form, two spellings of one USN that differ only in case
      become the same posted USN, so the second is a duplicate. */
  lemma FormMakesCaseVariantsClash(f1: RegisterForm.FormInput, f2: RegisterForm.FormInput)
    requires RegisterForm.Parse(f1).Success? && RegisterForm.Parse(f2).Success?
    requires Upper(f1.usn) == Upper(f2.usn)
    ensures RegisterApi.Clashes(RegisterForm.Parse(f1).value, RegisterForm.Parse(f2).value)
  {
  }

  /** Posted to the handler directly, the same two spellings are different
      keys, although the classifier puts both in the same department. */
  lemma HandlerComparesUsnLiterally()
    ensures !RegisterApi.Clashes(
              Record("Asha", "4MW21AD043", "asha@sode-edu.in", "3", "9876543210"),
              Record("Asha", "4mw21ad043", "asha.k@sode-edu.in", "3", "9876543210"))
    ensures Department.Classify("4mw21ad043") == Department.Classify("4MW21AD043")
  {
    DepartmentExamples.PlaceholderIsAiDs();
    DepartmentExamples.LowerCasePlaceholder();
  }
}
