TestResult.DisplayName,TestResult.Outcome,TestResult.Duration,TestResult.ResourceCount,RandomSeed
LinAlg.SolveSystemQR (correctness),Failed,00:00:01.7892451,5071698,1
LinAlg.SolveSystemQR (well-formedness),Passed,00:00:00.1886346,93111,1
