TestResult.DisplayName,TestResult.Outcome,TestResult.Duration,TestResult.ResourceCount,RandomSeed
Bits.ShiftRight (well-formedness),Passed,00:00:00.1224447,25091,1
